TestResult.DisplayName,TestResult.Outcome,TestResult.Duration,TestResult.ResourceCount,RandomSeed
Navigation.SuperAdminMenu (correctness),Failed,00:00:00.9791812,2098481,3
Navigation.PersonalItemsNameTheUser (correctness),Passed,00:00:00.8947424,1691280,3
Navigation.FilterNavigation (correctness),Passed,00:00:00.7361607,1512711,3
Navigation.PresenterMenu (correctness),Passed,00:00:00.2883814,717531,3
Navigation.UserNavigation (well-formedness),Passed,00:00:00.2261232,357291,3
Navigation.UnreachableItems (correctness),Passed,00:00:00.1989675,467113,3
Navigation.PersonalItemsNameTheUser (well-formedness),Passed,00:00:00.1430265,177978,3
Navigation.RoleNamed (well-formedness),Passed,00:00:00.1401015,43757,3
Navigation.MenuFor (well-formedness),Passed,00:00:00.1392291,126769,3
Navigation.UserNavigationMenu (well-formedness),Passed,00:00:00.1356325,191964,3
Navigation.UserMenu (correctness),Passed,00:00:00.0923589,172256,3
Navigation.MenusGrowWithPermissions (correctness),Passed,00:00:00.0880641,144525,3
Navigation.PresenterMenuWithinSuperAdminMenu (correctness),Passed,00:00:00.0859251,135503,3
Navigation.UserMenuWithinPresenterMenu (correctness),Passed,00:00:00.0803904,133010,3
Navigation.UsersToSelect (well-formedness),Passed,00:00:00.0534969,45008,3
Navigation.SelectValuesFindTheirRows (correctness),Passed,00:00:00.0425754,57095,3
Navigation.SelectValuesFindTheirRows (well-formedness),Passed,00:00:00.0337879,45554,3
Navigation.PathsDiffer (correctness),Passed,00:00:00.0202562,40051,3
