/** What a controller action answers: an HTTP status, a view, a redirect or an exception. */
module Responses {
  import opened Wrappers
  import opened Entities

  /** The .NET exceptions the controller's code can raise. */
  datatype Fault =
    | ArgumentOutOfRange   // String.Substring with a negative length
    | ArgumentNull         // DbSet.Remove(null), Enumerable.Any on a null collection
    | NullReference        // a member called on a null collection or a null form key
    | InvalidOperation     // SingleAsync / FirstAsync with no matching row

  /** The full-page views that show one drink. */
  datatype Page = DetailsPage | EditPage | DeletePage | AddIngredientPage

  datatype ActionResult =
    | BadRequest                                                      // 400
    | NotFound                                                        // 404
    | Conflict                                                        // 409
    | View(page: Page, drinkId: int)
    | EditableDrink(drinkId: int, lines: Option<seq<DrinkIngredient>>) // AJAX partial after Edit POST
    | LineFragment(line: DrinkIngredient, ingredientName: string)     // ingredient detail partial
    | LineEditor(line: DrinkIngredient, selected: int)                // ingredient edit partial
    | RedirectToIndex
    | RedirectToEdit(drinkId: int)
    | Faulted(fault: Fault)                                           // unhandled exception
}
