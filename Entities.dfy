/**
 * The entities the drink controller works on: drinks, ingredients and the
 * join rows (drink-ingredient lines) between them, plus the entity states the
 * controller assigns through the change tracker.
 */
module Entities {
  import opened Wrappers

  /** One ingredient line of a drink. `amount` and `brand` are None when not set. */
  datatype DrinkIngredient = DrinkIngredient(
    id: int,
    amount: Option<string>,
    brand: Option<string>,
    ingredientId: int,
    drinkId: int)

  /** A named ingredient, referenced (never owned) by drink-ingredient lines. */
  datatype Ingredient = Ingredient(id: int, name: string)

  /** The two states the controller assigns to tracked entities. */
  datatype EntityState = Modified | Deleted

  /** One assignment `db.Entry(e).State = s`, for a drink (by ID) or for a line. */
  datatype Entry =
    | DrinkEntry(drinkId: int, state: EntityState)
    | LineEntry(line: DrinkIngredient, state: EntityState)

  /**
   * A drink record. Its collection of lines is None when the navigation
   * property is null (nothing loaded, or a drink bound from a form).
   */
  class Drink {
    const id: int
    var name: string
    var instructions: string
    var glass: string
    var notes: string
    var lines: Option<seq<DrinkIngredient>>

    constructor (id: int, name: string, instructions: string, glass: string, notes: string,
                 lines: Option<seq<DrinkIngredient>>)
      ensures this.id == id && this.name == name && this.instructions == instructions
      ensures this.glass == glass && this.notes == notes && this.lines == lines
    {
      this.id := id;
      this.name := name;
      this.instructions := instructions;
      this.glass := glass;
      this.notes := notes;
      this.lines := lines;
    }

    /** Replaces a null line collection with an empty one; a present one is kept. */
    method EnsureLines()
      modifies this`lines
      ensures lines.Some?
      ensures old(lines).Some? ==> lines == old(lines)
      ensures old(lines).None? ==> lines == Some([])
    {
      if lines.None? {
        lines := Some([]);
      }
    }
  }
}
