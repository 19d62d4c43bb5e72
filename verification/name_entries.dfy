/**
 The list editor of the `NameEntries` component: adding a typed name,
 removing by position, removing every copy of a name through the
 confirmation dialog, sorting in alternating directions, and clearing.
 */
module NameEntries {
  import opened Wrappers
  import opened Text
  import opened Sequences

  /** The component's state: the names it edits and its own `useState` slots. */
  datatype Editor = Editor(
    names: seq<string>,
    newName: string,                // the text in the "Add a name" field
    isAscending: bool,              // the direction of the next sort
    nameToRemove: Option<string>,   // the name the dialog asks about
    isDialogOpen: bool)

  /** The state on mount: empty field, next sort ascending, no dialog. */
  function Initial(names: seq<string>): (e: Editor)
    ensures e.names == names && e.newName == "" && e.isAscending
    ensures e.nameToRemove == None && !e.isDialogOpen
  {
    Editor(names, "", true, None, false)
  }

  /** Typing into the field. */
  function SetNewName(e: Editor, text: string): (e': Editor)
    ensures e'.newName == text
    ensures e'.names == e.names && e'.isAscending == e.isAscending
    ensures e'.nameToRemove == e.nameToRemove && e'.isDialogOpen == e.isDialogOpen
  {
    e.(newName := text)
  }

  /**
   `addName`: a blank field changes nothing. Otherwise the trimmed text, which
   is non-empty and has no whitespace at either end, becomes the last name,
   the earlier names keep their places, and the field is cleared.
   */
  function AddName(e: Editor): (e': Editor)
    ensures IsBlank(e.newName) ==> e' == e
    ensures !IsBlank(e.newName) ==>
      && |e'.names| == |e.names| + 1
      && e'.names[..|e.names|] == e.names
      && e'.names[|e.names|] == Trim(e.newName)
      && e'.names[|e.names|] != "" && IsTrimmed(e'.names[|e.names|])
      && e'.newName == ""
      && e'.isAscending == e.isAscending
      && e'.nameToRemove == e.nameToRemove && e'.isDialogOpen == e.isDialogOpen
  {
    if Trim(e.newName) != "" then
      e.(names := e.names + [Trim(e.newName)], newName := "")
    else
      e
  }

  /** Removing the last position undoes an add. */
  lemma AddThenRemoveLast(e: Editor)
    requires !IsBlank(e.newName)
    ensures RemoveName(AddName(e), |e.names|).names == e.names
  {
  }

  /**
   `removeName(index)`: exactly the name at `index` goes, the others keep
   their order; an index outside the list changes nothing. The component
   defines this handler but nothing calls it.
   */
  function RemoveName(e: Editor, index: int): (e': Editor)
    ensures 0 <= index < |e.names| ==>
      && |e'.names| == |e.names| - 1
      && (forall k :: 0 <= k < index ==> e'.names[k] == e.names[k])
      && (forall k :: index <= k < |e'.names| ==> e'.names[k] == e.names[k + 1])
      && multiset(e'.names) + multiset{e.names[index]} == multiset(e.names)
    ensures !(0 <= index < |e.names|) ==> e'.names == e.names
    ensures e'.newName == e.newName && e'.isAscending == e.isAscending
    ensures e'.nameToRemove == e.nameToRemove && e'.isDialogOpen == e.isDialogOpen
  {
    var names := RemoveAt(e.names, index);
    assert 0 <= index < |e.names| ==>
      e.names == e.names[..index] + [e.names[index]] + e.names[index + 1..];
    e.(names := names)
  }

  /** The remove button of a row: remember the name and open the dialog; the list is untouched. */
  function PromptRemoveName(e: Editor, name: string): (e': Editor)
    ensures e'.nameToRemove == Some(name) && e'.isDialogOpen
    ensures e'.names == e.names && e'.newName == e.newName && e'.isAscending == e.isAscending
  {
    e.(nameToRemove := Some(name), isDialogOpen := true)
  }

  /** Cancel only closes the dialog; the remembered name stays. */
  function Cancel(e: Editor): (e': Editor)
    ensures !e'.isDialogOpen
    ensures e'.names == e.names && e'.newName == e.newName && e'.isAscending == e.isAscending
    ensures e'.nameToRemove == e.nameToRemove
  {
    e.(isDialogOpen := false)
  }

  /**
   `confirmRemoveName`: every entry equal to the remembered name goes, all
   copies of it, the rest keep their order; then the remembered name is
   forgotten and the dialog closes. With no remembered name, or the empty
   one (which `if (nameToRemove)` treats as absent), nothing changes.
   */
  function ConfirmRemoveName(e: Editor): (e': Editor)
    ensures e.nameToRemove == None || e.nameToRemove == Some("") ==> e' == e
    ensures e.nameToRemove.Some? && e.nameToRemove.value != "" ==>
      var gone := e.nameToRemove.value;
      && gone !in e'.names
      && multiset(e'.names) == multiset(e.names)[gone := 0]
      && IsSubsequence(e'.names, e.names)
      && e'.nameToRemove == None && !e'.isDialogOpen
      && e'.newName == e.newName && e'.isAscending == e.isAscending
  {
    match e.nameToRemove
    case Some(gone) =>
      if gone != "" then
        e.(names := RemoveAll(e.names, gone), nameToRemove := None, isDialogOpen := false)
      else
        e
    case None => e
  }

  /** Confirming a prompt for a name removes that name, every copy of it. */
  lemma PromptThenConfirm(e: Editor, name: string)
    requires name != ""
    ensures var e' := ConfirmRemoveName(PromptRemoveName(e, name));
            && name !in e'.names
            && (forall x :: x != name ==> multiset(e'.names)[x] == multiset(e.names)[x])
            && !e'.isDialogOpen
  {
  }

  /** Cancelling a prompt keeps every name. */
  lemma PromptThenCancel(e: Editor, name: string)
    ensures Cancel(PromptRemoveName(e, name)).names == e.names
    ensures !Cancel(PromptRemoveName(e, name)).isDialogOpen
  {
  }

  /** `a.localeCompare(b) <= 0`: `a` may stay before `b` in an ascending sort. */
  function Ascending(compare: (string, string) -> int): (string, string) -> bool
  {
    (a: string, b: string) => compare(a, b) <= 0
  }

  /** `b.localeCompare(a) <= 0`: `a` may stay before `b` in a descending sort. */
  function Descending(compare: (string, string) -> int): (string, string) -> bool
  {
    (a: string, b: string) => compare(b, a) <= 0
  }

  /** A consistent comparison, as `localeCompare` is for a fixed locale. */
  ghost predicate IsComparator(compare: (string, string) -> int)
  {
    TotalPreorder(Ascending(compare))
  }

  lemma DescendingIsPreorder(compare: (string, string) -> int)
    requires IsComparator(compare)
    ensures TotalPreorder(Descending(compare))
  {
    var asc := Ascending(compare);
    var desc := Descending(compare);
    forall a, b, c | desc(a, b) && desc(b, c) ensures desc(a, c) {
      assert asc(c, b) && asc(b, a);
    }
    forall a, b ensures desc(a, b) || desc(b, a) {
      assert asc(b, a) || asc(a, b);
    }
  }

  /**
   The Sort button: the same names, each as often as before, ascending under
   `compare` when `isAscending` holds and descending otherwise; the direction
   flips for the next click.
   */
  function ToggleSort(e: Editor, compare: (string, string) -> int): (e': Editor)
    requires IsComparator(compare)
    ensures multiset(e'.names) == multiset(e.names)
    ensures e.isAscending ==> SortedBy(e'.names, Ascending(compare))
    ensures !e.isAscending ==> SortedBy(e'.names, Descending(compare))
    ensures e'.isAscending == !e.isAscending
    ensures e'.newName == e.newName
    ensures e'.nameToRemove == e.nameToRemove && e'.isDialogOpen == e.isDialogOpen
  {
    DescendingIsPreorder(compare);
    var sorted :=
      if e.isAscending then SortBy(e.names, Ascending(compare))
      else SortBy(e.names, Descending(compare));
    e.(names := sorted, isAscending := !e.isAscending)
  }

  /** The Clear button: no names left, nothing else touched. */
  function Clear(e: Editor): (e': Editor)
    ensures e'.names == []
    ensures e'.newName == e.newName && e'.isAscending == e.isAscending
    ensures e'.nameToRemove == e.nameToRemove && e'.isDialogOpen == e.isDialogOpen
  {
    e.(names := [])
  }
}
