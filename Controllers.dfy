/**
 * The drink controller's actions over an in-memory stand-in for its database
 * context: the drink, ingredient and drink-ingredient tables as maps keyed by
 * ID, and the change tracker as the sequence of state assignments made.
 */
module Controllers {
  import opened Wrappers
  import opened Entities
  import opened Responses
  import opened DeletionKeys
  import opened DrinkLines

  class DrinkController {
    var drinks: map<int, Drink>
    var ingredients: map<int, Ingredient>
    var drinkIngredients: map<int, DrinkIngredient>
    var entries: seq<Entry>

    /** Every table is keyed by its rows' own IDs. */
    ghost predicate Valid()
      reads this
    {
      (forall k :: k in drinks ==> drinks[k].id == k) &&
      (forall k :: k in ingredients ==> ingredients[k].id == k) &&
      (forall k :: k in drinkIngredients ==> drinkIngredients[k].id == k)
    }

    constructor (drinks: map<int, Drink>, ingredients: map<int, Ingredient>, drinkIngredients: map<int, DrinkIngredient>)
      requires forall k :: k in drinks ==> drinks[k].id == k
      requires forall k :: k in ingredients ==> ingredients[k].id == k
      requires forall k :: k in drinkIngredients ==> drinkIngredients[k].id == k
      ensures Valid()
      ensures this.drinks == drinks && this.ingredients == ingredients
      ensures this.drinkIngredients == drinkIngredients && entries == []
    {
      this.drinks := drinks;
      this.ingredients := ingredients;
      this.drinkIngredients := drinkIngredients;
      entries := [];
    }

    /** GET Details: 400 without an id; SingleAsync raises when no drink has it. */
    function Details(id: Option<int>): (r: ActionResult)
      reads this
      ensures id.None? <==> r == BadRequest
      ensures id.Some? && id.value !in drinks <==> r == Faulted(InvalidOperation)
      ensures id.Some? && id.value in drinks <==> r.View?
      ensures r.View? ==> r == View(DetailsPage, id.value)
    {
      if id.None? then BadRequest
      else if id.value !in drinks then Faulted(InvalidOperation)
      else View(DetailsPage, id.value)
    }

    /**
     * GET Edit: 400 without an id; SingleAsync raises when no drink has it;
     * otherwise a null line collection is replaced by an empty one before the
     * form is shown, and nothing else changes.
     */
    method EditForm(id: Option<int>) returns (r: ActionResult)
      requires Valid()
      modifies (if id.Some? && id.value in drinks then {drinks[id.value]} else {})`lines
      ensures Valid()
      ensures id.None? ==> r == BadRequest
      ensures id.Some? && id.value !in drinks ==> r == Faulted(InvalidOperation)
      ensures id.Some? && id.value in drinks ==>
        r == View(EditPage, id.value) && drinks[id.value].lines.Some? &&
        (old(drinks[id.value].lines).Some? ==> drinks[id.value].lines == old(drinks[id.value].lines)) &&
        (old(drinks[id.value].lines).None? ==> drinks[id.value].lines == Some([]))
    {
      if id.None? {
        return BadRequest;
      }
      if id.value !in drinks {
        return Faulted(InvalidOperation);
      }
      drinks[id.value].EnsureLines();
      r := View(EditPage, id.value);
    }

    /**
     * POST Edit. With invalid fields the form is shown again and nothing
     * changes. Otherwise the deletion list is built from the form keys (an
     * unclosed bracket raises before any change), the drink is marked
     * Modified, and each submitted line is removed and marked Deleted when
     * its ID is in the list, or marked Modified otherwise.
     */
    method EditSubmit(drink: Drink, submitted: Option<seq<DrinkIngredient>>, form: seq<FormField>,
                      fieldsValid: bool, ajax: bool) returns (r: ActionResult)
      requires Valid()
      modifies this`entries, drink`lines
      ensures Valid()
      ensures !fieldsValid ==>
        r == View(EditPage, drink.id) && entries == old(entries) && drink.lines == old(drink.lines)
      ensures fieldsValid && DeletionList(form).Failure? ==>
        r == Faulted(DeletionList(form).error) && entries == old(entries) && drink.lines == old(drink.lines)
      ensures fieldsValid && DeletionList(form).Success? ==>
        var items := if submitted.Some? then submitted.value else [];
        var p := MarkLines(old(drink.lines), items, |items|, DeletionList(form).value);
        entries == old(entries) + [DrinkEntry(drink.id, Modified)] + p.entries &&
        drink.lines == p.lines &&
        r == (if p.faulted then Faulted(NullReference)
              else if ajax then EditableDrink(drink.id, p.lines)
              else RedirectToIndex)
    {
      if !fieldsValid {
        return View(EditPage, drink.id);
      }
      var built := BuildDeletionList(form);
      if built.Failure? {
        return Faulted(built.error);
      }
      entries := entries + [DrinkEntry(drink.id, Modified)];
      var items := if submitted.Some? then submitted.value else [];
      var faulted := MarkSubmittedLines(drink, items, built.value);
      if faulted {
        r := Faulted(NullReference);
      } else if ajax {
        r := EditableDrink(drink.id, drink.lines);
      } else {
        r := RedirectToIndex;
      }
    }

    /**
     * The Edit POST's loop over the submitted lines: each line whose ID is in
     * `deletionList` is removed from the drink's collection and marked
     * Deleted, every other line is marked Modified; removing from a null
     * collection raises and ends the loop.
     */
    method MarkSubmittedLines(drink: Drink, items: seq<DrinkIngredient>, deletionList: seq<int>) returns (faulted: bool)
      requires Valid()
      modifies this`entries, drink`lines
      ensures Valid()
      ensures var p := MarkLines(old(drink.lines), items, |items|, deletionList);
        entries == old(entries) + p.entries && drink.lines == p.lines && faulted == p.faulted
    {
      ghost var start, before := drink.lines, entries;
      ghost var progress := EditProgress(start, [], false);
      var i := 0;
      while i < |items|
        invariant 0 <= i <= |items|
        invariant progress == MarkLines(start, items, i, deletionList) && !progress.faulted
        invariant drink.lines == progress.lines && entries == before + progress.entries
      {
        var item := items[i];
        progress := MarkLine(progress, item, deletionList);
        var state := StateFor(item, deletionList);
        if state == Deleted {
          if drink.lines.None? {
            MarkLinesFaultIsFinal(start, items, deletionList, i + 1);
            return true;
          }
          drink.lines := Some(RemoveFirst(drink.lines.value, item));
        }
        entries := entries + [LineEntry(item, state)];
        i := i + 1;
      }
      faulted := false;
    }

    /** GET Delete: 400 without an id, 404 when no drink has it. */
    function DeleteForm(id: Option<int>): (r: ActionResult)
      reads this
      ensures id.None? <==> r == BadRequest
      ensures id.Some? && id.value !in drinks <==> r == NotFound
      ensures id.Some? && id.value in drinks <==> r.View?
      ensures r.View? ==> r == View(DeletePage, id.value)
    {
      if id.None? then BadRequest
      else if id.value !in drinks then NotFound
      else View(DeletePage, id.value)
    }

    /** POST Delete: marks the drink Deleted; removing a missing drink (null) raises. */
    method DeleteConfirmed(id: int) returns (r: ActionResult)
      requires Valid()
      modifies this`entries
      ensures Valid()
      ensures id in drinks ==> r == RedirectToIndex && entries == old(entries) + [DrinkEntry(id, Deleted)]
      ensures id !in drinks ==> r == Faulted(ArgumentNull) && entries == old(entries)
    {
      if id !in drinks {
        return Faulted(ArgumentNull);
      }
      entries := entries + [DrinkEntry(id, Deleted)];
      r := RedirectToIndex;
    }

    /** GET AddIngredient: 400 without an id, 404 when no drink has it. */
    function AddIngredientForm(id: Option<int>): (r: ActionResult)
      reads this
      ensures id.None? <==> r == BadRequest
      ensures id.Some? && id.value !in drinks <==> r == NotFound
      ensures id.Some? && id.value in drinks <==> r.View?
      ensures r.View? ==> r == View(AddIngredientPage, id.value)
    {
      if id.None? then BadRequest
      else if id.value !in drinks then NotFound
      else View(AddIngredientPage, id.value)
    }

    /**
     * POST AddIngredient: 404 when no drink has the id; FirstAsync raises when
     * no ingredient has `ingredientId`; `Any` on a null collection raises
     * ArgumentNull; 409 and no change when the drink
     * already has a line for the ingredient; otherwise exactly one line
     * linking the two is appended, which keeps the drink free of duplicate
     * ingredients.
     */
    method AddIngredient(id: int, ingredientId: int) returns (r: ActionResult)
      requires Valid()
      modifies (if id in drinks then {drinks[id]} else {})`lines
      ensures Valid()
      ensures id !in drinks ==> r == NotFound
      ensures id in drinks && ingredientId !in ingredients ==>
        r == Faulted(InvalidOperation) && drinks[id].lines == old(drinks[id].lines)
      ensures id in drinks && ingredientId in ingredients ==>
        match AddLine(old(drinks[id].lines), id, ingredientId)
        case Added(lines) => r == RedirectToEdit(id) && drinks[id].lines == Some(lines)
        case Duplicate => r == Conflict && drinks[id].lines == old(drinks[id].lines)
        case NullCollection => r == Faulted(ArgumentNull) && drinks[id].lines == old(drinks[id].lines)
      ensures id in drinks && old(drinks[id].lines).Some? && NoDuplicateIngredient(old(drinks[id].lines).value) ==>
        drinks[id].lines.Some? && NoDuplicateIngredient(drinks[id].lines.value)
    {
      if id !in drinks {
        return NotFound;
      }
      var drink := drinks[id];
      if ingredientId !in ingredients {
        return Faulted(InvalidOperation);
      }
      var ingredient := ingredients[ingredientId];
      match AddLine(drink.lines, id, ingredient.id) {
        case NullCollection =>
          r := Faulted(ArgumentNull);
        case Duplicate =>
          r := Conflict;
        case Added(lines) =>
          drink.lines := Some(lines);
          r := RedirectToEdit(id);
      }
    }

    /**
     * GET DrinkIngredientDetails: 404 without an id, when no line has it, or
     * when the line's ingredient is missing; otherwise the line with its
     * ingredient's name.
     */
    function DrinkIngredientDetails(id: Option<int>): (r: ActionResult)
      reads this
      requires Valid()
      ensures r == NotFound <==>
        id.None? || id.value !in drinkIngredients || drinkIngredients[id.value].ingredientId !in ingredients
      ensures r != NotFound ==>
        r.LineFragment? && r.line == drinkIngredients[id.value] && r.line.id == id.value &&
        r.ingredientName == ingredients[r.line.ingredientId].name
    {
      if id.None? then NotFound
      else if id.value !in drinkIngredients then NotFound
      else
        var line := drinkIngredients[id.value];
        if line.ingredientId !in ingredients then NotFound
        else LineFragment(line, ingredients[line.ingredientId].name)
    }

    /**
     * GET DrinkIngredientEdit: 404 in the same three cases as the detail
     * fragment; otherwise the line with its own ingredient preselected.
     */
    function DrinkIngredientEdit(id: Option<int>): (r: ActionResult)
      reads this
      requires Valid()
      ensures r == NotFound <==>
        id.None? || id.value !in drinkIngredients || drinkIngredients[id.value].ingredientId !in ingredients
      ensures r != NotFound ==>
        r.LineEditor? && r.line == drinkIngredients[id.value] && r.line.id == id.value &&
        r.selected == r.line.ingredientId && r.selected in ingredients
    {
      if id.None? then NotFound
      else if id.value !in drinkIngredients then NotFound
      else
        var line := drinkIngredients[id.value];
        if line.ingredientId !in ingredients then NotFound
        else LineEditor(line, line.ingredientId)
    }

    /**
     * A missing id is a bad request for Details, Delete and AddIngredient,
     * but not found for the two drink-ingredient fragments.
     */
    lemma MissingIdOutcomes()
      requires Valid()
      ensures Details(None) == BadRequest && DeleteForm(None) == BadRequest
      ensures AddIngredientForm(None) == BadRequest
      ensures DrinkIngredientDetails(None) == NotFound && DrinkIngredientEdit(None) == NotFound
    {
    }
  }
}
