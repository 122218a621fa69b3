TestResult.DisplayName,TestResult.Outcome,TestResult.Duration,TestResult.ResourceCount,RandomSeed
Navigation.SuperAdminMenu (correctness),Passed,00:00:00.9359769,1668968,1
Navigation.PersonalItemsNameTheUser (correctness),Failed,00:00:00.8475409,2170326,1
Navigation.FilterNavigation (correctness),Passed,00:00:00.7381831,1507975,1
Navigation.PresenterMenu (correctness),Passed,00:00:00.6147215,1953473,1
Navigation.UserNavigation (well-formedness),Passed,00:00:00.1756715,358074,1
Navigation.PersonalItemsNameTheUser (well-formedness),Passed,00:00:00.1546441,179309,1
Navigation.UnreachableItems (correctness),Passed,00:00:00.1507116,329661,1
Navigation.MenuFor (well-formedness),Passed,00:00:00.1318978,124101,1
Navigation.UserNavigationMenu (well-formedness),Passed,00:00:00.1105691,192203,1
Navigation.RoleNamed (well-formedness),Passed,00:00:00.1094409,43756,1
Navigation.UserMenu (correctness),Passed,00:00:00.1017417,170377,1
Navigation.PresenterMenuWithinSuperAdminMenu (correctness),Passed,00:00:00.0847271,135103,1
Navigation.MenusGrowWithPermissions (correctness),Passed,00:00:00.0840405,144169,1
Navigation.UserMenuWithinPresenterMenu (correctness),Passed,00:00:00.0775396,132723,1
Navigation.SelectValuesFindTheirRows (well-formedness),Passed,00:00:00.0449381,45644,1
Navigation.SelectValuesFindTheirRows (correctness),Passed,00:00:00.0360594,57218,1
Navigation.UsersToSelect (well-formedness),Passed,00:00:00.0278426,44956,1
Navigation.PathsDiffer (correctness),Passed,00:00:00.0248640,40060,1
