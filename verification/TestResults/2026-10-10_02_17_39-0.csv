TestResult.DisplayName,TestResult.Outcome,TestResult.Duration,TestResult.ResourceCount,RandomSeed
Navigation.FilterNavigation (correctness),Failed,00:00:01.3694166,2084103,4
Navigation.PersonalItemsNameTheUser (correctness),Failed,00:00:01.2935599,2170320,4
Navigation.SuperAdminMenu (correctness),Failed,00:00:00.9735918,2098545,4
Navigation.PresenterMenu (correctness),Passed,00:00:00.4073758,1114061,4
Navigation.UnreachableItems (correctness),Passed,00:00:00.2160951,432740,4
Navigation.UserNavigation (well-formedness),Passed,00:00:00.1779419,352526,4
Navigation.PersonalItemsNameTheUser (well-formedness),Passed,00:00:00.1744792,179377,4
Navigation.MenuFor (well-formedness),Passed,00:00:00.1569407,123143,4
Navigation.UserNavigationMenu (well-formedness),Passed,00:00:00.1478384,194598,4
Navigation.RoleNamed (well-formedness),Passed,00:00:00.1203199,43707,4
Navigation.UserMenu (correctness),Passed,00:00:00.1126178,164981,4
Navigation.MenusGrowWithPermissions (correctness),Passed,00:00:00.1041621,144293,4
Navigation.UserMenuWithinPresenterMenu (correctness),Passed,00:00:00.0910557,132877,4
Navigation.PresenterMenuWithinSuperAdminMenu (correctness),Passed,00:00:00.0868054,135375,4
Navigation.SelectValuesFindTheirRows (well-formedness),Passed,00:00:00.0502315,45630,4
Navigation.SelectValuesFindTheirRows (correctness),Passed,00:00:00.0427764,57208,4
Navigation.UsersToSelect (well-formedness),Passed,00:00:00.0401512,45732,4
Navigation.PathsDiffer (correctness),Passed,00:00:00.0242447,40054,4
