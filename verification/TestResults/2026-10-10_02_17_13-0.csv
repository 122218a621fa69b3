TestResult.DisplayName,TestResult.Outcome,TestResult.Duration,TestResult.ResourceCount,RandomSeed
Navigation.SuperAdminMenu (correctness),Failed,00:00:00.9449907,2098477,0
Navigation.PersonalItemsNameTheUser (correctness),Passed,00:00:00.9049390,1655449,0
Navigation.FilterNavigation (correctness),Passed,00:00:00.8499745,1937909,0
Navigation.PresenterMenu (correctness),Passed,00:00:00.4187038,1192375,0
Navigation.UnreachableItems (correctness),Passed,00:00:00.2476847,729003,0
Navigation.UserNavigation (well-formedness),Passed,00:00:00.2474466,355563,0
Navigation.MenuFor (well-formedness),Passed,00:00:00.1914655,124028,0
Navigation.RoleNamed (well-formedness),Passed,00:00:00.1813080,43774,0
Navigation.PersonalItemsNameTheUser (well-formedness),Passed,00:00:00.1685542,177963,0
Navigation.UserMenu (correctness),Passed,00:00:00.1203219,164979,0
Navigation.UserNavigationMenu (well-formedness),Passed,00:00:00.1110496,194203,0
Navigation.MenusGrowWithPermissions (correctness),Passed,00:00:00.0725303,144481,0
Navigation.UserMenuWithinPresenterMenu (correctness),Passed,00:00:00.0614778,133077,0
Navigation.PresenterMenuWithinSuperAdminMenu (correctness),Passed,00:00:00.0577350,135466,0
Navigation.UsersToSelect (well-formedness),Passed,00:00:00.0382317,45743,0
Navigation.SelectValuesFindTheirRows (correctness),Passed,00:00:00.0330676,57206,0
Navigation.SelectValuesFindTheirRows (well-formedness),Passed,00:00:00.0324655,45628,0
Navigation.PathsDiffer (correctness),Passed,00:00:00.0261076,40303,0
