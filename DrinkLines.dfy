/**
 * What the controller does to a drink's collection of ingredient lines: the
 * Edit POST partition into deleted and modified lines, and the AddIngredient
 * POST duplicate guard.
 */
module DrinkLines {
  import opened Wrappers
  import opened Entities

  /** `ICollection.Remove(x)`: drops the first line equal to `x`, if any. */
  function RemoveFirst(lines: seq<DrinkIngredient>, x: DrinkIngredient): seq<DrinkIngredient>
    decreases |lines|
  {
    if lines == [] then []
    else if lines[0] == x then lines[1..]
    else [lines[0]] + RemoveFirst(lines[1..], x)
  }

  /** Removing `x` takes away one occurrence of `x`, if there is one, and nothing else. */
  lemma {:induction false} RemoveFirstTakesOne(lines: seq<DrinkIngredient>, x: DrinkIngredient)
    ensures multiset(RemoveFirst(lines, x)) == multiset(lines) - multiset{x}
    decreases |lines|
  {
    if lines != [] {
      assert lines == [lines[0]] + lines[1..];
      if lines[0] != x {
        RemoveFirstTakesOne(lines[1..], x);
      }
    }
  }

  /** The state the Edit POST assigns to a submitted line. */
  function StateFor(line: DrinkIngredient, deletion: seq<int>): EntityState
  {
    if line.id in deletion then Deleted else Modified
  }

  /**
   * Where the Edit POST's line loop stands: the drink's collection (None when
   * null), the state assignments made so far, and whether the loop stopped
   * with a NullReferenceException.
   */
  datatype EditProgress = EditProgress(lines: Option<seq<DrinkIngredient>>, entries: seq<Entry>, faulted: bool)

  /**
   * One iteration for `item`: a line whose ID is in the deletion list is
   * removed from the drink's collection and then marked Deleted (the removal
   * raises when the collection is null); any other line is marked Modified.
   */
  function MarkLine(p: EditProgress, item: DrinkIngredient, deletion: seq<int>): EditProgress
  {
    if p.faulted then p
    else if item.id in deletion then
      if p.lines.None? then p.(faulted := true)
      else EditProgress(Some(RemoveFirst(p.lines.value, item)), p.entries + [LineEntry(item, Deleted)], false)
    else p.(entries := p.entries + [LineEntry(item, Modified)])
  }

  /**
   * The state of the Edit POST's loop over the submitted lines `items` after
   * the first `n` of them, starting from the drink's collection `lines`.
   */
  function MarkLines(lines: Option<seq<DrinkIngredient>>, items: seq<DrinkIngredient>, n: nat, deletion: seq<int>): EditProgress
    requires n <= |items|
    decreases n
  {
    if n == 0 then EditProgress(lines, [], false)
    else MarkLine(MarkLines(lines, items, n - 1, deletion), items[n - 1], deletion)
  }

  /** The submitted lines whose ID is in the deletion list, in submission order. */
  function DeletedLines(items: seq<DrinkIngredient>, deletion: seq<int>): (r: seq<DrinkIngredient>)
    ensures forall x :: multiset(r)[x] == if x.id in deletion then multiset(items)[x] else 0
    decreases |items|
  {
    if items == [] then []
    else
      var init := items[..|items| - 1];
      var last := items[|items| - 1];
      assert items == init + [last];
      DeletedLines(init, deletion) + (if last.id in deletion then [last] else [])
  }

  /**
   * On a present collection the loop never raises, and after the first `n`
   * lines the collection has lost one occurrence of each deleted line among
   * them and nothing else.
   */
  lemma {:induction false} MarkLinesRemovesDeleted(lines: seq<DrinkIngredient>, items: seq<DrinkIngredient>, n: nat, deletion: seq<int>)
    requires n <= |items|
    ensures var p := MarkLines(Some(lines), items, n, deletion);
      !p.faulted && p.lines.Some? &&
      multiset(p.lines.value) == multiset(lines) - multiset(DeletedLines(items[..n], deletion))
    decreases n
  {
    if n > 0 {
      MarkLinesRemovesDeleted(lines, items, n - 1, deletion);
      var prev := MarkLines(Some(lines), items, n - 1, deletion);
      var last := items[n - 1];
      assert items[..n][..n - 1] == items[..n - 1];
      var done := DeletedLines(items[..n - 1], deletion);
      if last.id in deletion {
        assert DeletedLines(items[..n], deletion) == done + [last];
        assert MarkLines(Some(lines), items, n, deletion).lines == Some(RemoveFirst(prev.lines.value, last));
        RemoveFirstTakesOne(prev.lines.value, last);
        SubtractInTurn(multiset(lines), multiset(done), last);
      } else {
        assert DeletedLines(items[..n], deletion) == done;
        assert MarkLines(Some(lines), items, n, deletion).lines == prev.lines;
      }
    }
  }

  lemma SubtractInTurn<T>(m: multiset<T>, a: multiset<T>, x: T)
    ensures m - a - multiset{x} == m - (a + multiset{x})
  {
    assert forall y :: (m - a - multiset{x})[y] == (m - (a + multiset{x}))[y];
  }

  /**
   * Unless the loop raises, it assigns each of the first `n` submitted lines
   * exactly one state, in submission order: Deleted exactly when the line's
   * ID is in the deletion list, Modified otherwise.
   */
  lemma {:induction false} MarkLinesTagsEachLine(lines: Option<seq<DrinkIngredient>>, items: seq<DrinkIngredient>, n: nat, deletion: seq<int>)
    requires n <= |items|
    ensures var p := MarkLines(lines, items, n, deletion);
      !p.faulted ==>
        |p.entries| == n &&
        forall k :: 0 <= k < n ==> p.entries[k] == LineEntry(items[k], StateFor(items[k], deletion))
    decreases n
  {
    if n > 0 {
      MarkLinesTagsEachLine(lines, items, n - 1, deletion);
    }
  }

  /**
   * On a null collection nothing is removed, and the loop raises exactly when
   * one of the lines processed has its ID in the deletion list.
   */
  lemma {:induction false} MarkLinesOnNull(items: seq<DrinkIngredient>, n: nat, deletion: seq<int>)
    requires n <= |items|
    ensures MarkLines(None, items, n, deletion).lines == None
    ensures MarkLines(None, items, n, deletion).faulted <==> exists k :: 0 <= k < n && items[k].id in deletion
    decreases n
  {
    if n > 0 {
      MarkLinesOnNull(items, n - 1, deletion);
    }
  }

  /** Once the loop has raised, later lines change nothing. */
  lemma {:induction false} MarkLinesFaultIsFinal(lines: Option<seq<DrinkIngredient>>, items: seq<DrinkIngredient>, deletion: seq<int>, k: nat)
    requires k <= |items| && MarkLines(lines, items, k, deletion).faulted
    ensures MarkLines(lines, items, |items|, deletion) == MarkLines(lines, items, k, deletion)
    decreases |items| - k
  {
    if k < |items| {
      MarkLinesFaultIsFinal(lines, items, deletion, k + 1);
    }
  }

  /**
   * After the whole loop, a line whose ID is not in the deletion list keeps
   * every occurrence it had in the collection; a deleted line that occurred
   * once is gone.
   */
  lemma KeptAndRemovedLines(lines: seq<DrinkIngredient>, items: seq<DrinkIngredient>, deletion: seq<int>, x: DrinkIngredient)
    ensures var after := MarkLines(Some(lines), items, |items|, deletion).lines;
      after.Some? &&
      (x.id !in deletion ==> multiset(after.value)[x] == multiset(lines)[x]) &&
      (x.id in deletion && x in items && multiset(lines)[x] <= 1 ==> x !in after.value)
  {
    MarkLinesRemovesDeleted(lines, items, |items|, deletion);
    assert items[..|items|] == items;
  }

  /** The final collection does not depend on the order in which lines are submitted. */
  lemma SubmissionOrderIrrelevant(lines: seq<DrinkIngredient>, a: seq<DrinkIngredient>, b: seq<DrinkIngredient>, deletion: seq<int>)
    requires multiset(a) == multiset(b)
    ensures var pa, pb := MarkLines(Some(lines), a, |a|, deletion), MarkLines(Some(lines), b, |b|, deletion);
      pa.lines.Some? && pb.lines.Some? && multiset(pa.lines.value) == multiset(pb.lines.value)
  {
    MarkLinesRemovesDeleted(lines, a, |a|, deletion);
    MarkLinesRemovesDeleted(lines, b, |b|, deletion);
    assert a[..|a|] == a && b[..|b|] == b;
    DeletedLinesPermutation(a, b, deletion);
  }

  /** Permuting the submitted lines permutes the deleted ones. */
  lemma DeletedLinesPermutation(a: seq<DrinkIngredient>, b: seq<DrinkIngredient>, deletion: seq<int>)
    requires multiset(a) == multiset(b)
    ensures multiset(DeletedLines(a, deletion)) == multiset(DeletedLines(b, deletion))
  {
    var da, db := multiset(DeletedLines(a, deletion)), multiset(DeletedLines(b, deletion));
    forall x ensures da[x] == db[x] {
    }
  }

  /** No two lines of a drink reference the same ingredient. */
  predicate NoDuplicateIngredient(lines: seq<DrinkIngredient>)
  {
    forall i, j :: 0 <= i < j < |lines| ==> lines[i].ingredientId != lines[j].ingredientId
  }

  /** Some line of the drink references `ingredientId`. */
  predicate HasIngredient(lines: seq<DrinkIngredient>, ingredientId: int)
  {
    exists k :: 0 <= k < |lines| && lines[k].ingredientId == ingredientId
  }

  /** What the AddIngredient POST does to a drink's collection. */
  datatype AddOutcome =
    | Added(lines: seq<DrinkIngredient>)   // the collection with the new line appended
    | Duplicate                             // answered with 409 Conflict
    | NullCollection                        // Enumerable.Any on a null collection raises

  /**
   * Adding ingredient `ingredientId` to drink `drinkId`: refused when a line
   * already references it, otherwise exactly one new line (ID 0, no amount or
   * brand, linked to both) is appended and all existing lines stay in place.
   */
  function AddLine(lines: Option<seq<DrinkIngredient>>, drinkId: int, ingredientId: int): (r: AddOutcome)
    ensures lines.None? <==> r.NullCollection?
    ensures r.Duplicate? <==> lines.Some? && HasIngredient(lines.value, ingredientId)
    ensures r.Added? ==>
      |r.lines| == |lines.value| + 1 && r.lines[..|lines.value|] == lines.value &&
      r.lines[|lines.value|] == DrinkIngredient(0, None, None, ingredientId, drinkId)
    ensures r.Added? && NoDuplicateIngredient(lines.value) ==> NoDuplicateIngredient(r.lines)
  {
    if lines.None? then NullCollection
    else if exists k :: 0 <= k < |lines.value| && lines.value[k].ingredientId == ingredientId then Duplicate
    else Added(lines.value + [DrinkIngredient(0, None, None, ingredientId, drinkId)])
  }

  /**
   * Adding the same ingredient twice: the first attempt adds one line and the
   * second is refused, so the collection grows by exactly one.
   */
  lemma AddTwiceConflicts(lines: seq<DrinkIngredient>, drinkId: int, ingredientId: int)
    requires !HasIngredient(lines, ingredientId)
    ensures AddLine(Some(lines), drinkId, ingredientId).Added?
    ensures var once := AddLine(Some(lines), drinkId, ingredientId).lines;
      |once| == |lines| + 1 && AddLine(Some(once), drinkId, ingredientId) == Duplicate
  {
    var once := AddLine(Some(lines), drinkId, ingredientId).lines;
    assert once[|lines|].ingredientId == ingredientId;
  }
}
