/** List logic shared by the two admin pages: the selection of items for a
    bulk delete, and the editable list of image slots in the form. */
module AdminCommon {
  import opened Basics

  /** `selectAllItems()`, defined alike on both pages: the ids of the
      filtered list, in order. */
  function SelectAllItems<T>(filtered: seq<T>, id: T -> int): (r: seq<int>)
    ensures |r| == |filtered|
    ensures forall i :: 0 <= i < |filtered| ==> r[i] == id(filtered[i])
  {
    seq(|filtered|, i requires 0 <= i < |filtered| => id(filtered[i]))
  }

  /** After select-all, every listed item shows as selected. */
  lemma SelectAllMarksEveryItem<T>(filtered: seq<T>, id: T -> int, item: T)
    requires item in filtered
    ensures id(item) in SelectAllItems(filtered, id)
  {
    var i :| 0 <= i < |filtered| && filtered[i] == item;
    assert SelectAllItems(filtered, id)[i] == id(item);
  }

  /** `toggleItemSelection(id)`: removes `id` when selected, otherwise appends it. */
  function ToggleItemSelection(selected: seq<int>, id: int): (r: seq<int>)
    ensures id in r <==> id !in selected
    ensures forall x :: x != id ==> (x in r <==> x in selected)
    ensures NoDuplicates(selected) ==> NoDuplicates(r)
    ensures id in selected ==> IsSubsequence(r, selected)
    ensures id !in selected ==> |r| == |selected| + 1 && r[..|selected|] == selected
  {
    if id in selected then Filter(selected, (x: int) => x != id)
    else
      assert (selected + [id])[..|selected|] == selected;
      selected + [id]
  }

  /** Selecting an unselected id and then toggling it again restores the selection. */
  lemma {:induction false} ToggleTwiceRestores(selected: seq<int>, id: int)
    requires id !in selected
    ensures ToggleItemSelection(ToggleItemSelection(selected, id), id) == selected
    decreases |selected|
  {
    var p := (x: int) => x != id;
    FilterSnocDropped(selected, id, p);
    FilterAll(selected, p);
  }

  lemma {:induction false} FilterSnocDropped(s: seq<int>, y: int, p: int -> bool)
    requires !p(y)
    ensures Filter(s + [y], p) == Filter(s, p)
    decreases |s|
  {
    if |s| == 0 {
      assert [y][1..] == [];
    } else {
      assert (s + [y])[1..] == s[1..] + [y];
      FilterSnocDropped(s[1..], y, p);
    }
  }

  /** The header checkbox: when as many items are selected as are listed it
      clears the selection, otherwise it selects every listed id. Only the
      counts are compared. */
  function ToggleAll(selected: seq<int>, listedIds: seq<int>): (r: seq<int>)
    ensures |selected| == |listedIds| ==> r == []
    ensures |selected| != |listedIds| ==> r == listedIds
  {
    if |selected| == |listedIds| then [] else listedIds
  }

  /** The header checkbox shows as checked only for a non-empty list whose
      length the selection matches. */
  predicate AllChecked(selected: seq<int>, listedIds: seq<int>) {
    |selected| == |listedIds| && |listedIds| > 0
  }

  /** Because only counts are compared, a selection of other ids of the
      same size is cleared instead of being replaced by the listed ids. */
  lemma ToggleAllComparesCountsOnly(selected: seq<int>, listedIds: seq<int>, x: int)
    requires |selected| == |listedIds| && x in listedIds && x !in selected
    ensures x !in ToggleAll(selected, listedIds)
  {
  }

  /** A slot of the image list: a URL typed in, or a file picked for upload. */
  datatype ImageSlot = UrlSlot(url: string) | FileSlot(name: string)

  /** `addImageURL()`: a new empty URL slot at the end. */
  function AddImageURL(slots: seq<ImageSlot>): (r: seq<ImageSlot>)
    ensures |r| == |slots| + 1 && r[..|slots|] == slots && r[|slots|] == UrlSlot("")
  {
    slots + [UrlSlot("")]
  }

  /** `updateImageURL(index, value)` for a slot on the list. */
  function UpdateImageURL(slots: seq<ImageSlot>, index: int, value: ImageSlot): (r: seq<ImageSlot>)
    requires 0 <= index < |slots|
    ensures |r| == |slots| && r[index] == value
    ensures forall i :: 0 <= i < |slots| && i != index ==> r[i] == slots[i]
  {
    slots[index := value]
  }

  /** `removeImageURL(index)`: keeps the last slot, and otherwise drops the
      slot at `index` (none when `index` is off the list). */
  function RemoveImageURL(slots: seq<ImageSlot>, index: int): (r: seq<ImageSlot>)
    ensures |slots| <= 1 ==> r == slots
    ensures |slots| > 1 && 0 <= index < |slots| ==>
      |r| == |slots| - 1
      && (forall i :: 0 <= i < index ==> r[i] == slots[i])
      && (forall i :: index <= i < |r| ==> r[i] == slots[i + 1])
    ensures |slots| > 1 && !(0 <= index < |slots|) ==> r == slots
  {
    if |slots| > 1 then RemoveAt(slots, index, 0) else slots
  }

  /** `slots.filter((_, i) => i !== index)`, for the slots from position `from` on. */
  function RemoveAt(slots: seq<ImageSlot>, index: int, from: nat): (r: seq<ImageSlot>)
    ensures from <= index < from + |slots| ==>
      |r| == |slots| - 1
      && (forall i :: 0 <= i < index - from ==> r[i] == slots[i])
      && (forall i :: index - from <= i < |r| ==> r[i] == slots[i + 1])
    ensures !(from <= index < from + |slots|) ==> r == slots
    decreases |slots|
  {
    if |slots| == 0 then []
    else
      var rest := RemoveAt(slots[1..], index, from + 1);
      if index == from then rest
      else
        assert !(from + 1 <= index < from + |slots|) ==> [slots[0]] + slots[1..] == slots;
        [slots[0]] + rest
  }

  /** Removing a slot and adding one back leaves a list of the same length. */
  lemma RemoveThenAddKeepsLength(slots: seq<ImageSlot>, index: int)
    requires |slots| > 1 && 0 <= index < |slots|
    ensures |AddImageURL(RemoveImageURL(slots, index))| == |slots|
  {
  }

  /** `handleBulkDelete`: what it asks and which deletes it sends. */
  datatype BulkDelete = BulkDelete(confirmShown: bool, deletes: seq<int>, selectionAfter: seq<int>)

  /** An empty selection returns at once. Otherwise the user is asked; on
      "yes" one delete per selected id is sent, and the selection is
      cleared once all of them succeed. */
  function HandleBulkDelete(selected: seq<int>, confirmed: bool, allSucceeded: bool): (r: BulkDelete)
    ensures |selected| == 0 ==> r == BulkDelete(false, [], selected)
    ensures |selected| > 0 ==> r.confirmShown
    ensures r.deletes == (if |selected| > 0 && confirmed then selected else [])
    ensures r.selectionAfter == [] <==> |selected| == 0 || (confirmed && allSucceeded)
    ensures r.selectionAfter != [] ==> r.selectionAfter == selected
  {
    if |selected| == 0 then BulkDelete(false, [], selected)
    else if !confirmed then BulkDelete(true, [], selected)
    else BulkDelete(true, selected, if allSucceeded then [] else selected)
  }
}
