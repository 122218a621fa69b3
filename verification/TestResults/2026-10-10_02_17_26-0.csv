TestResult.DisplayName,TestResult.Outcome,TestResult.Duration,TestResult.ResourceCount,RandomSeed
Navigation.SuperAdminMenu (correctness),Passed,00:00:00.9400463,1967395,2
Navigation.FilterNavigation (correctness),Passed,00:00:00.8391173,1874717,2
Navigation.PersonalItemsNameTheUser (correctness),Passed,00:00:00.6936883,1459492,2
Navigation.PresenterMenu (correctness),Passed,00:00:00.3094081,953835,2
Navigation.UserNavigation (well-formedness),Passed,00:00:00.1794897,352589,2
Navigation.PersonalItemsNameTheUser (well-formedness),Passed,00:00:00.1591007,177946,2
Navigation.UnreachableItems (correctness),Passed,00:00:00.1525595,385923,2
Navigation.MenuFor (well-formedness),Passed,00:00:00.1370581,124212,2
Navigation.UserNavigationMenu (well-formedness),Passed,00:00:00.1210365,192524,2
Navigation.RoleNamed (well-formedness),Passed,00:00:00.1208102,43703,2
Navigation.UserMenu (correctness),Passed,00:00:00.1001398,165179,2
Navigation.MenusGrowWithPermissions (correctness),Passed,00:00:00.0962277,144499,2
Navigation.UserMenuWithinPresenterMenu (correctness),Passed,00:00:00.0744611,132531,2
Navigation.PresenterMenuWithinSuperAdminMenu (correctness),Passed,00:00:00.0729349,134983,2
Navigation.SelectValuesFindTheirRows (correctness),Passed,00:00:00.0457814,57116,2
Navigation.SelectValuesFindTheirRows (well-formedness),Passed,00:00:00.0322158,45570,2
Navigation.UsersToSelect (well-formedness),Passed,00:00:00.0321786,45780,2
Navigation.PathsDiffer (correctness),Passed,00:00:00.0239267,40042,2
