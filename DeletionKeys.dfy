/**
 * How the Edit POST turns raw form fields named `DeleteDrinkIngredients[<n>]`
 * into the list of drink-ingredient IDs to delete.
 */
module DeletionKeys {
  import opened Wrappers
  import opened Int32Parse
  import opened Responses

  /** The text a form key must contain to be considered. */
  const Marker: string := "DeleteDrinkIngredients["

  /**
   * One form field as `Request.Form` reports it: the key and the value
   * `Request.Form[key]` gives. The key is None for a body segment without
   * `=`, which the form parser files under a null name.
   */
  datatype FormField = FormField(key: Option<string>, value: string)

  predicate OccursAt(s: string, sub: string, i: int)
  {
    0 <= i && i + |sub| <= |s| && s[i..i + |sub|] == sub
  }

  /** Ordinal `String.Contains`: `sub` occurs somewhere in `s`, not necessarily at the start. */
  predicate Contains(s: string, sub: string)
  {
    exists i :: 0 <= i <= |s| - |sub| && OccursAt(s, sub, i)
  }

  /** `s.IndexOf(c, from)`: the first position at or after `from` holding `c`, or -1. */
  function IndexOfFrom(s: string, c: char, from: nat): (k: int)
    requires from <= |s|
    ensures k == -1 || (from <= k < |s| && s[k] == c)
    ensures k == -1 ==> forall j :: from <= j < |s| ==> s[j] != c
    ensures k != -1 ==> forall j :: from <= j < k ==> s[j] != c
    decreases |s| - from
  {
    if from == |s| then -1
    else if s[from] == c then from
    else IndexOfFrom(s, c, from + 1)
  }

  /** `s.Substring(start, length)`; ArgumentOutOfRange when the range is not inside `s`. */
  function Substring(s: string, start: int, length: int): (r: Result<string, Fault>)
    ensures r.Success? <==> 0 <= start && 0 <= length && start + length <= |s|
    ensures r.Success? ==> |r.value| == length && forall k :: 0 <= k < length ==> r.value[k] == s[start + k]
    ensures r.Failure? ==> r.error == ArgumentOutOfRange
  {
    if 0 <= start && 0 <= length && start + length <= |s| then Success(s[start..start + length])
    else Failure(ArgumentOutOfRange)
  }

  /** Position `i` holds the first `[` of `key`. */
  ghost predicate FirstOpen(key: string, i: int)
  {
    0 <= i < |key| && key[i] == '[' && '[' !in key[..i]
  }

  /** `i` is the first `[` of `key` and `j` the first `]` after it. */
  ghost predicate Bracketed(key: string, i: int, j: int)
  {
    FirstOpen(key, i) && i < j < |key| && key[j] == ']' && ']' !in key[i + 1..j]
  }

  /** The first `[` of `key` has no `]` after it. */
  ghost predicate Unclosed(key: string)
  {
    exists i :: FirstOpen(key, i) && ']' !in key[i + 1..]
  }

  /** A key holding the marker holds a `[`. */
  lemma MarkerHasOpen(key: string)
    requires Contains(key, Marker)
    ensures '[' in key
  {
    var p :| 0 <= p <= |key| - |Marker| && OccursAt(key, Marker, p);
    assert key[p..p + |Marker|][22] == '[';
  }

  /** `IndexOf('[')` finds the first `[` of a key that holds one. */
  lemma OpenFound(key: string)
    requires '[' in key
    ensures FirstOpen(key, IndexOfFrom(key, '[', 0))
  {
    var open := IndexOfFrom(key, '[', 0);
    assert open != -1;
    assert key[..open] == key[0..open];
  }

  /** `IndexOf(']', open + 1)` decides whether the first `[` is closed, and where. */
  lemma CloseFound(key: string, open: int)
    requires FirstOpen(key, open)
    ensures IndexOfFrom(key, ']', open + 1) == -1 <==> Unclosed(key)
    ensures IndexOfFrom(key, ']', open + 1) != -1 ==> Bracketed(key, open, IndexOfFrom(key, ']', open + 1))
    ensures forall i, j :: Bracketed(key, i, j) ==> i == open && j == IndexOfFrom(key, ']', open + 1)
  {
    var close := IndexOfFrom(key, ']', open + 1);
    forall i | FirstOpen(key, i) ensures i == open {
    }
    if close == -1 {
      assert Unclosed(key) by { assert FirstOpen(key, open) && ']' !in key[open + 1..]; }
    } else {
      assert key[open + 1..][close - open - 1] == ']';
      assert ']' !in key[open + 1..close];
    }
    forall i, j | Bracketed(key, i, j) ensures i == open && j == close {
      assert i == open;
    }
  }

  /**
   * The text between the first `[` of `key` and the next `]`, as
   * `key.Substring(firstBracket, key.IndexOf(']', firstBracket) - firstBracket)`
   * computes it; without such a `]` the length is negative and Substring raises.
   */
  function BracketText(key: string): (r: Result<string, Fault>)
    requires '[' in key
    ensures r.Failure? <==> Unclosed(key)
    ensures r.Failure? ==> r.error == ArgumentOutOfRange
    ensures r.Success? ==> exists i, j :: Bracketed(key, i, j)
    ensures forall i, j :: Bracketed(key, i, j) ==> r == Success(key[i + 1..j])
  {
    var firstBracket := IndexOfFrom(key, '[', 0) + 1;
    var close := IndexOfFrom(key, ']', firstBracket);
    OpenFound(key);
    CloseFound(key, firstBracket - 1);
    var r := Substring(key, firstBracket, close - firstBracket);
    assert r.Success? ==> r.value == key[firstBracket..close] && Bracketed(key, firstBracket - 1, close);
    r
  }

  /**
   * One iteration of the key loop: what the field adds to the deletion list
   * (Some(n)), nothing (None), or the exception it raises: `Contains` called
   * on a null key, or Substring when the key's first `[` is not followed by
   * a `]`. Keys without the marker are filtered out before the loop and add
   * nothing.
   */
  function KeyIndex(f: FormField): (r: Result<Option<int>, Fault>)
    ensures f.key.None? <==> r == Failure(NullReference)
    ensures f.key.Some? && !Contains(f.key.value, Marker) ==> r == Success(None)
    ensures r.Failure? <==> f.key.None? || (Contains(f.key.value, Marker) && Unclosed(f.key.value))
    ensures r.Failure? && f.key.Some? ==> r.error == ArgumentOutOfRange
    ensures r.Success? && r.value.Some? ==> f.key.Some? && Contains(f.key.value, Marker) && f.value == "on"
    ensures forall i, j :: f.key.Some? && Bracketed(f.key.value, i, j) && Contains(f.key.value, Marker) ==>
      r.Success? &&
      (r.value.Some? <==> f.value == "on" && TryParseInt32(f.key.value[i + 1..j]).Some?) &&
      (r.value.Some? ==> r.value == TryParseInt32(f.key.value[i + 1..j]))
  {
    match f.key
    case None => Failure(NullReference)
    case Some(key) =>
      if !Contains(key, Marker) then Success(None)
      else
        MarkerHasOpen(key);
        match BracketText(key)
        case Failure(e) => Failure(e)
        case Success(text) =>
          match TryParseInt32(text)
          case None => Success(None)
          case Some(n) => if f.value == "on" then Success(Some(n)) else Success(None)
  }

  /** A per-field step of the key loop: what one form field adds, or the exception it raises. */
  type KeyStep = FormField -> Result<Option<int>, Fault>

  /**
   * The list the key loop builds with `step`, in form order: each field adds
   * at most one entry, and the first exception ends the loop.
   */
  function Collect(form: seq<FormField>, step: KeyStep): Result<seq<int>, Fault>
    decreases |form|
  {
    if form == [] then Success([])
    else
      var previous := Collect(form[..|form| - 1], step);
      var last := step(form[|form| - 1]);
      if previous.Failure? then previous
      else if last.Failure? then Failure(last.error)
      else if last.value.None? then previous
      else Success(previous.value + [last.value.value])
  }

  /** The deletion list of the Edit POST, or the exception its key loop raises. */
  function DeletionList(form: seq<FormField>): Result<seq<int>, Fault>
  {
    Collect(form, KeyIndex)
  }

  /** Builds the deletion list the way the Edit POST does, one form key at a time. */
  method BuildDeletionList(form: seq<FormField>) returns (r: Result<seq<int>, Fault>)
    ensures r == DeletionList(form)
  {
    var deletionList: seq<int> := [];
    var i := 0;
    while i < |form|
      invariant 0 <= i <= |form|
      invariant Collect(form[..i], KeyIndex) == Success(deletionList)
    {
      assert form[..i + 1][..i] == form[..i];
      var step := KeyIndex(form[i]);
      if step.Failure? {
        CollectFailureSticks(form, KeyIndex, i + 1);
        return Failure(step.error);
      }
      if step.value.Some? {
        deletionList := deletionList + [step.value.value];
      }
      i := i + 1;
    }
    assert form[..i] == form;
    r := Success(deletionList);
  }

  /** Once a step has raised, the whole loop has raised the same exception. */
  lemma {:induction false} CollectFailureSticks(form: seq<FormField>, step: KeyStep, k: nat)
    requires k <= |form| && Collect(form[..k], step).Failure?
    ensures Collect(form, step) == Collect(form[..k], step)
    decreases |form| - k
  {
    if k < |form| {
      assert form[..k + 1][..k] == form[..k];
      CollectFailureSticks(form, step, k + 1);
    } else {
      assert form[..k] == form;
    }
  }

  /** The loop raises exactly when some field's step raises, and then with the first such exception. */
  lemma {:induction false} CollectFails(form: seq<FormField>, step: KeyStep)
    ensures Collect(form, step).Failure? <==> exists i :: 0 <= i < |form| && step(form[i]).Failure?
    ensures Collect(form, step).Failure? ==>
      exists i :: 0 <= i < |form| && step(form[i]) == Failure(Collect(form, step).error) &&
                  forall j :: 0 <= j < i ==> step(form[j]).Success?
    decreases |form|
  {
    if form != [] {
      var init := form[..|form| - 1];
      CollectFails(init, step);
      assert forall i :: 0 <= i < |init| ==> init[i] == form[i];
    }
  }

  /** When the loop completes, `n` is in the list exactly when some field's step yields `n`. */
  lemma {:induction false} CollectMembers(form: seq<FormField>, step: KeyStep, n: int)
    requires Collect(form, step).Success?
    ensures n in Collect(form, step).value <==>
      exists k :: 0 <= k < |form| && step(form[k]) == Success(Some(n))
    decreases |form|
  {
    if form != [] {
      var init := form[..|form| - 1];
      CollectMembers(init, step, n);
      assert forall i :: 0 <= i < |init| ==> init[i] == form[i];
    }
  }

  /** Later fields only append: the list built from a prefix of the form is a prefix of the whole list. */
  lemma {:induction false} CollectGrows(form: seq<FormField>, more: seq<FormField>, step: KeyStep)
    requires Collect(form + more, step).Success?
    ensures Collect(form, step).Success?
    ensures Collect(form, step).value <= Collect(form + more, step).value
    decreases |more|
  {
    if more == [] {
      assert form + more == form;
    } else {
      var shorter := more[..|more| - 1];
      assert (form + more)[..|form + more| - 1] == form + shorter;
      CollectGrows(form, shorter, step);
    }
  }

  /** A field whose step adds nothing can be dropped from anywhere in the form without changing the outcome. */
  lemma {:induction false} CollectDropsIgnored(before: seq<FormField>, f: FormField, after: seq<FormField>, step: KeyStep)
    requires step(f) == Success(None)
    ensures Collect(before + [f] + after, step) == Collect(before + after, step)
    decreases |after|
  {
    if after == [] {
      assert before + [f] + after == before + [f];
      assert (before + [f])[..|before|] == before;
      assert before + after == before;
    } else {
      var shorter := after[..|after| - 1];
      var x := after[|after| - 1];
      assert before + [f] + after == (before + [f] + shorter) + [x];
      assert before + after == (before + shorter) + [x];
      assert (before + [f] + shorter + [x])[..|before + [f] + shorter|] == before + [f] + shorter;
      assert (before + shorter + [x])[..|before + shorter|] == before + shorter;
      CollectDropsIgnored(before, f, shorter, step);
    }
  }

  /** The field makes the key loop raise: its key is null, or marked with its first `[` unclosed. */
  ghost predicate KeyRaises(f: FormField)
  {
    f.key.None? || (Contains(f.key.value, Marker) && Unclosed(f.key.value))
  }

  /**
   * The Edit POST's deletion list: the loop raises exactly when some field
   * has a null key or a marked key whose first `[` is unclosed, and then the
   * first such field decides the exception; otherwise `n` is in the list
   * exactly when some field's step adds `n`.
   */
  lemma DeletionListMeaning(form: seq<FormField>, n: int)
    ensures DeletionList(form).Failure? <==> exists i :: 0 <= i < |form| && KeyRaises(form[i])
    ensures DeletionList(form).Failure? ==>
      exists i :: 0 <= i < |form| && KeyRaises(form[i]) &&
        (forall j :: 0 <= j < i ==> !KeyRaises(form[j])) &&
        DeletionList(form).error == (if form[i].key.None? then NullReference else ArgumentOutOfRange)
    ensures DeletionList(form).Success? ==>
      (n in DeletionList(form).value <==> exists k :: 0 <= k < |form| && KeyIndex(form[k]) == Success(Some(n)))
  {
    CollectFails(form, KeyIndex);
    if DeletionList(form).Success? {
      CollectMembers(form, KeyIndex, n);
    }
  }

  /** A field without the marker, or whose value is not "on", leaves the deletion list as it is. */
  lemma DropUnmarkedField(before: seq<FormField>, f: FormField, after: seq<FormField>)
    requires f.key.Some?
    requires !Contains(f.key.value, Marker) || (f.value != "on" && !Unclosed(f.key.value))
    ensures DeletionList(before + [f] + after) == DeletionList(before + after)
  {
    CollectDropsIgnored(before, f, after, KeyIndex);
  }

  /** The deletion list keeps form order and is never shortened by later fields. */
  lemma DeletionListGrows(form: seq<FormField>, more: seq<FormField>)
    requires DeletionList(form + more).Success?
    ensures DeletionList(form).Success? && DeletionList(form).value <= DeletionList(form + more).value
  {
    CollectGrows(form, more, KeyIndex);
  }
}
