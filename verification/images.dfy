/** Image lists on update (menu and news alike): the stored list becomes the
    images the client kept followed by the ones it uploaded, and the images
    the item had before but no longer lists are deleted. */
module ImageReconcile {
  import opened Basics

  /** The `existingImages` form field: empty (or absent), a JSON array of
      URLs, or text that is not a JSON array of strings. */
  datatype ExistingImages = NoneKept | Kept(urls: seq<string>) | Malformed

  /** The kept images, or `None` when the field does not parse
      (the handler answers 400 "Invalid existingImages"). */
  function KeptImages(field: ExistingImages): (r: Option<seq<string>>)
    ensures r.None? <==> field.Malformed?
    ensures field.NoneKept? ==> r == Some([])
    ensures field.Kept? ==> r == Some(field.urls)
  {
    match field
    case NoneKept => Some([])
    case Kept(urls) => Some(urls)
    case Malformed => None
  }

  /** The list an update stores: kept images first, then the uploads, each in order. */
  function FinalImages(kept: seq<string>, uploaded: seq<string>): (r: seq<string>)
    ensures |r| == |kept| + |uploaded|
    ensures r[..|kept|] == kept && r[|kept|..] == uploaded
  {
    kept + uploaded
  }

  /** Reference definition: the elements of `current` that `keep` does not
      hold, in their order in `current`. */
  function Minus(current: seq<string>, keep: seq<string>): seq<string> {
    if |current| == 0 then []
    else
      var last := current[|current| - 1];
      Minus(current[..|current| - 1], keep) + (if last in keep then [] else [last])
  }

  lemma {:induction false} MinusProperties(current: seq<string>, keep: seq<string>)
    ensures forall x :: x in Minus(current, keep) <==> x in current && x !in keep
    ensures IsSubsequence(Minus(current, keep), current)
    decreases |current|
  {
    if |current| > 0 {
      var init := current[..|current| - 1];
      var last := current[|current| - 1];
      MinusProperties(init, keep);
      assert current == init + [last];
      SubsequenceSnoc(Minus(init, keep), init, last, last !in keep);
    }
  }

  /** Appending one element to the whole keeps a subsequence a subsequence,
      and appending it to both keeps them related too. */
  lemma {:induction false} SubsequenceSnoc(sub: seq<string>, s: seq<string>, x: string, take: bool)
    requires IsSubsequence(sub, s)
    ensures IsSubsequence(sub + (if take then [x] else []), s + [x])
    decreases |s|
  {
    var sub' := sub + (if take then [x] else []);
    if |sub| == 0 {
      if take {
        SubsequenceOfLast(s, x);
        assert sub' == [x];
      } else {
        assert sub' == [];
      }
    } else if |s| == 0 {
    } else if sub[0] == s[0] {
      SubsequenceSnoc(sub[1..], s[1..], x, take);
      assert sub'[0] == s[0];
      assert sub'[1..] == sub[1..] + (if take then [x] else []);
      assert (s + [x])[1..] == s[1..] + [x];
    } else {
      SubsequenceSnoc(sub, s[1..], x, take);
      assert (s + [x])[1..] == s[1..] + [x];
    }
  }

  lemma {:induction false} SubsequenceOfLast(s: seq<string>, x: string)
    ensures IsSubsequence([x], s + [x])
    decreases |s|
  {
    if |s| > 0 {
      assert (s + [x])[1..] == s[1..] + [x];
      SubsequenceOfLast(s[1..], x);
    } else {
      assert [x][1..] == [];
    }
  }

  /** The loop the handlers run: for each current image, scan the new list
      and keep the image for deletion when it is not found. */
  method ImagesToDelete(current: seq<string>, newList: seq<string>) returns (toDelete: seq<string>)
    ensures toDelete == Minus(current, newList)
    ensures forall x :: x in toDelete <==> x in current && x !in newList
    ensures IsSubsequence(toDelete, current)
    ensures forall x :: x in toDelete ==> x !in newList
  {
    toDelete := [];
    var i := 0;
    while i < |current|
      invariant 0 <= i <= |current|
      invariant toDelete == Minus(current[..i], newList)
    {
      var found := false;
      var j := 0;
      while j < |newList|
        invariant 0 <= j <= |newList|
        invariant found <==> current[i] in newList[..j]
      {
        if current[i] == newList[j] {
          found := true;
          break;
        }
        j := j + 1;
      }
      assert !found ==> newList[..j] == newList;
      if !found {
        toDelete := toDelete + [current[i]];
      }
      assert current[..i + 1][..i] == current[..i];
      i := i + 1;
    }
    assert current[..i] == current;
    MinusProperties(current, newList);
  }

  /** An image kept in the request is never deleted, and neither is an upload. */
  lemma KeptImagesSurvive(current: seq<string>, kept: seq<string>, uploaded: seq<string>, x: string)
    requires x in kept || x in uploaded
    ensures x !in Minus(current, FinalImages(kept, uploaded))
  {
    MinusProperties(current, FinalImages(kept, uploaded));
  }
}
