/** The range edits of Swift's `List`, built from single-element removals and insertions. */
module SwiftList {
  /** The list with the elements from `lo` up to `hi` replaced. */
  function Splice<T>(s: seq<T>, lo: nat, hi: nat, xs: seq<T>): seq<T>
    requires lo <= hi <= |s|
  {
    s[..lo] + xs + s[hi..]
  }

  /** What a range replacement does on any range: the list it leaves and whether it got through.  A range
      reaching past the end removes everything from its start on before the removal at the end throws. */
  function Replaced<T(==)>(s: seq<T>, lo: int, hi: int, xs: seq<T>): (r: (bool, seq<T>))
    requires lo <= hi
  {
    if 0 <= lo && hi <= |s| then (true, Splice(s, lo, hi, xs))
    else if lo == hi then (xs == [], s)
    else if 0 <= lo <= |s| then (false, s[..lo])
    else (false, s)
  }

  /** Putting the replaced elements back restores the list. */
  lemma SpliceBack<T>(s: seq<T>, lo: nat, hi: nat, xs: seq<T>)
    requires lo <= hi <= |s|
    ensures Splice(Splice(s, lo, hi, xs), lo, lo + |xs|, s[lo..hi]) == s
  {
    var t := Splice(s, lo, hi, xs);
    assert t[..lo] == s[..lo] && t[lo + |xs|..] == s[hi..];
    assert s == s[..lo] + s[lo..hi] + s[hi..];
  }

  /** Two disjoint replacements commute, the later one shifted by the earlier one's growth. */
  lemma SplicesCommute<T>(s: seq<T>, a: nat, b: nat, xs: seq<T>, c: nat, d: nat, ys: seq<T>)
    requires a <= b <= c <= d <= |s|
    ensures c - b + |xs| + a <= d - b + |xs| + a <= |Splice(s, a, b, xs)|
    ensures Splice(Splice(s, c, d, ys), a, b, xs) == Splice(Splice(s, a, b, xs), c - b + |xs| + a, d - b + |xs| + a, ys)
  {
    var right, left := Splice(s, c, d, ys), Splice(s, a, b, xs);
    var c', d' := c - b + |xs| + a, d - b + |xs| + a;
    assert right[..a] == s[..a] && right[b..] == s[b..c] + ys + s[d..];
    assert left[..c'] == s[..a] + xs + s[b..c];
    assert left[d'..] == s[d..];
  }

  /** Removing at `lo` once more. */
  lemma RemoveStep<T>(s: seq<T>, lo: nat, i: nat)
    requires lo <= i < |s|
    ensures var t := s[..lo] + s[i..]; t[..lo] + t[lo + 1..] == s[..lo] + s[i + 1..]
  {
  }

  /** Inserting element `i` of `xs` at `lo`, in front of the later ones. */
  lemma InsertStep<T>(s: seq<T>, lo: nat, hi: nat, xs: seq<T>, i: nat)
    requires lo <= hi <= |s| && i < |xs|
    ensures var t := Splice(s, lo, hi, xs[i + 1..]); t[..lo] + [xs[i]] + t[lo..] == Splice(s, lo, hi, xs[i..])
  {
    var t := Splice(s, lo, hi, xs[i + 1..]);
    assert t[..lo] == s[..lo] && t[lo..] == xs[i + 1..] + s[hi..];
    assert [xs[i]] + xs[i + 1..] == xs[i..];
  }

  /** Inserting element `i` of `xs` behind the earlier ones. */
  lemma AppendStep<T>(s: seq<T>, at: nat, xs: seq<T>, i: nat)
    requires at <= |s| && i < |xs|
    ensures var t := Splice(s, at, at, xs[..i]);
            t[..at + i] + [xs[i]] + t[at + i..] == Splice(s, at, at, xs[..i + 1])
  {
    var t := Splice(s, at, at, xs[..i]);
    assert t[..at + i] == s[..at] + xs[..i] && t[at + i..] == s[at..];
    assert xs[..i] + [xs[i]] == xs[..i + 1];
  }

  /** Removing and then inserting splices. */
  lemma SpliceInTwo<T>(s: seq<T>, lo: nat, hi: nat, xs: seq<T>)
    requires lo <= hi <= |s|
    ensures Splice(Splice(s, lo, hi, []), lo, lo, xs) == Splice(s, lo, hi, xs)
    ensures lo == hi ==> Splice(s, lo, hi, []) == s
  {
  }

  class List<T(==)> {
    var contents: seq<T>

    constructor (contents: seq<T>)
      ensures this.contents == contents
    {
      this.contents := contents;
    }

    /** `remove(at:)`; an index outside the list throws. */
    method RemoveAt(index: int) returns (ok: bool)
      modifies this
      ensures ok <==> 0 <= index < |old(contents)|
      ensures contents == if ok then old(contents)[..index] + old(contents)[index + 1..] else old(contents)
    {
      ok := 0 <= index < |contents|;
      if ok {
        contents := contents[..index] + contents[index + 1..];
      }
    }

    /** `insert(_:at:)`; an index past the end throws. */
    method Insert(x: T, index: int) returns (ok: bool)
      modifies this
      ensures ok <==> 0 <= index <= |old(contents)|
      ensures contents == if ok then old(contents)[..index] + [x] + old(contents)[index..] else old(contents)
    {
      ok := 0 <= index <= |contents|;
      if ok {
        contents := contents[..index] + [x] + contents[index..];
      }
    }

    /** `removeSubrange`: removes at the fixed lower bound. */
    method RemoveSubrange(lo: int, hi: int) returns (ok: bool)
      requires lo <= hi
      modifies this
      ensures (ok, contents) == Replaced(old(contents), lo, hi, [])
      ensures 0 <= lo && hi <= |old(contents)| ==> ok && contents == old(contents)[..lo] + old(contents)[hi..]
      ensures 0 <= lo <= |old(contents)| < hi ==> !ok && contents == old(contents)[..lo]
    {
      ghost var s := contents;
      ok := true;
      for i := lo to hi
        invariant ok
        invariant i == lo ==> contents == s
        invariant i > lo ==> 0 <= lo && i <= |s| && contents == s[..lo] + s[i..]
      {
        if 0 <= lo && i < |s| {
          RemoveStep(s, lo, i);
          assert i == lo ==> s == s[..lo] + s[i..];
        }
        ok := RemoveAt(lo);
        if !ok {
          assert 0 <= lo <= |s| ==> contents == s[..lo];
          return;
        }
      }
      assert 0 <= lo && hi <= |s| ==> contents == s[..lo] + [] + s[hi..];
    }

    /** `insert(contentsOf:at:)`: inserts forwards at a moving index. */
    method InsertContents(xs: seq<T>, at: int) returns (ok: bool)
      modifies this
      ensures (ok, contents) == Replaced(old(contents), at, at, xs)
      ensures 0 <= at <= |old(contents)| ==> ok && contents == old(contents)[..at] + xs + old(contents)[at..]
      ensures !(0 <= at <= |old(contents)|) ==> (ok <==> xs == []) && contents == old(contents)
    {
      ghost var s := contents;
      ghost var fits := 0 <= at <= |s|;
      ok := true;
      var currentIndex := at;
      for i := 0 to |xs|
        invariant ok && currentIndex == at + i
        invariant if fits then contents == Splice(s, at, at, xs[..i]) else i == 0 && contents == s
      {
        if fits {
          AppendStep(s, at, xs, i);
        }
        ok := Insert(xs[i], currentIndex);
        if !ok {
          return;
        }
        currentIndex := currentIndex + 1;
      }
      assert xs[..|xs|] == xs;
    }

    /** `replaceSubrange`, inserting the new elements in reverse at the fixed lower bound. */
    method ReplaceSubrange(lo: int, hi: int, xs: seq<T>) returns (ok: bool)
      requires lo <= hi
      modifies this
      ensures (ok, contents) == Replaced(old(contents), lo, hi, xs)
      ensures 0 <= lo && hi <= |old(contents)| ==> ok && contents == old(contents)[..lo] + xs + old(contents)[hi..]
      ensures 0 <= lo <= |old(contents)| < hi && lo < hi ==> !ok && contents == old(contents)[..lo]
    {
      ghost var s := contents;
      ok := true;
      for i := lo to hi
        invariant ok
        invariant i == lo ==> contents == s
        invariant i > lo ==> 0 <= lo && i <= |s| && contents == s[..lo] + s[i..]
      {
        if 0 <= lo && i < |s| {
          RemoveStep(s, lo, i);
          assert i == lo ==> s == s[..lo] + s[i..];
        }
        ok := RemoveAt(lo);
        if !ok {
          assert 0 <= lo <= |s| ==> contents == s[..lo];
          return;
        }
      }
      ghost var fits := 0 <= lo && hi <= |s|;
      assert fits ==> contents == Splice(s, lo, hi, xs[|xs|..]);
      for i := |xs| downto 0
        invariant ok
        invariant if fits then contents == Splice(s, lo, hi, xs[i..]) else i == |xs| && lo == hi && contents == s
      {
        if fits {
          InsertStep(s, lo, hi, xs, i);
        }
        ok := Insert(xs[i], lo);
        if !ok {
          return;
        }
      }
      assert xs[0..] == xs;
    }

    /** `replaceSubrange` as a removal and a forward insertion; it agrees with the other form on every range. */
    method ReplaceSubrangeInTwo(lo: int, hi: int, xs: seq<T>) returns (ok: bool)
      requires lo <= hi
      modifies this
      ensures (ok, contents) == Replaced(old(contents), lo, hi, xs)
      ensures 0 <= lo && hi <= |old(contents)| ==> ok && contents == old(contents)[..lo] + xs + old(contents)[hi..]
      ensures 0 <= lo <= |old(contents)| < hi && lo < hi ==> !ok && contents == old(contents)[..lo]
    {
      if 0 <= lo && hi <= |contents| {
        SpliceInTwo(contents, lo, hi, xs);
      }
      ok := RemoveSubrange(lo, hi);
      if ok {
        ok := InsertContents(xs, lo);
      }
    }

    /** `removeFirst(_:)` */
    method RemoveFirst(number: nat) returns (ok: bool)
      modifies this
      ensures ok <==> number <= |old(contents)|
      ensures contents == if ok then Splice(old(contents), 0, number, []) else old(contents)
    {
      if number > |contents| {
        return false;
      }
      ghost var s := contents;
      for i := 0 to number
        invariant contents == s[i..]
      {
        ok := RemoveAt(0);
      }
      ok := true;
    }

    /** `removeLast(_:)` */
    method RemoveLast(number: nat) returns (ok: bool)
      modifies this
      ensures ok <==> number <= |old(contents)|
      ensures contents == if ok then Splice(old(contents), |old(contents)| - number, |old(contents)|, [])
              else old(contents)
    {
      if number > |contents| {
        return false;
      }
      ghost var s := contents;
      for i := 0 to number
        invariant contents == s[..|s| - i]
      {
        ok := RemoveAt(|contents| - 1);
      }
      ok := true;
    }
  }

  /** Replacing by one form and putting the replaced elements back by the other leaves the list as it was. */
  method ReplaceAndRestore<T>(list: List<T>, lo: nat, hi: nat, xs: seq<T>)
    requires lo <= hi <= |list.contents|
    modifies list
    ensures list.contents == old(list.contents)
  {
    var replaced := list.contents[lo..hi];
    SpliceBack(list.contents, lo, hi, xs);
    var ok := list.ReplaceSubrange(lo, hi, xs);
    ok := list.ReplaceSubrangeInTwo(lo, lo + |xs|, replaced);
  }

  /** Two replacements of disjoint ranges end in the same list in either order and by either form. */
  method EitherOrder<T>(left: List<T>, right: List<T>, a: nat, b: nat, xs: seq<T>, c: nat, d: nat, ys: seq<T>)
    requires left != right && left.contents == right.contents
    requires a <= b <= c <= d <= |left.contents|
    modifies left, right
    ensures left.contents == right.contents == Splice(Splice(old(left.contents), c, d, ys), a, b, xs)
  {
    SplicesCommute(left.contents, a, b, xs, c, d, ys);
    var ok := left.ReplaceSubrange(a, b, xs);
    ok := left.ReplaceSubrangeInTwo(a + |xs| + c - b, a + |xs| + d - b, ys);
    ok := right.ReplaceSubrangeInTwo(c, d, ys);
    ok := right.ReplaceSubrange(a, b, xs);
  }
}
