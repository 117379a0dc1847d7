/** The citation chip list of the current client (`addCitation` in public/static/script.js):
    every cited file name gets one chip, and a name cited again moves its chip to the top. The
    list is modelled by the chips' file names, top first. */
module Citations {
  /** `refs` as `addCitation` receives it: one file name, or an array of them. */
  datatype Refs = One(name: string) | Many(names: seq<string>)

  /** `Array.isArray(refs) ? refs : [refs]` */
  function Files(refs: Refs): (files: seq<string>)
    ensures refs.One? ==> files == [refs.name]
    ensures refs.Many? ==> files == refs.names
  {
    match refs
    case One(n) => [n]
    case Many(ns) => ns
  }

  predicate NoDuplicates(s: seq<string>) {
    forall i, j :: 0 <= i < j < |s| ==> s[i] != s[j]
  }

  function Elems(s: seq<string>): set<string> {
    set x | x in s
  }

  /** `s` with every element of `avoid` removed, the rest in their order. */
  function Except(s: seq<string>, avoid: set<string>): (r: seq<string>)
    ensures |r| <= |s|
    decreases |s|
  {
    if |s| == 0 then []
    else (if s[0] in avoid then [] else [s[0]]) + Except(s[1..], avoid)
  }

  /** The distinct names of `refs`, most recent occurrence first. */
  function Recent(refs: seq<string>): (r: seq<string>)
    ensures |r| <= |refs|
    decreases |refs|
  {
    if |refs| == 0 then []
    else [refs[|refs| - 1]] + Except(Recent(refs[..|refs| - 1]), {refs[|refs| - 1]})
  }

  /** The position of the chip for `fn` (the `find` over `.citation` elements), or -1. */
  function IndexOf(s: seq<string>, fn: string): (k: int)
    ensures -1 <= k < |s|
    ensures k >= 0 ==> s[k] == fn && forall j :: 0 <= j < k ==> s[j] != fn
    ensures k == -1 <==> fn !in s
    decreases |s|
  {
    if |s| == 0 then -1
    else if s[0] == fn then 0
    else
      var k := IndexOf(s[1..], fn);
      if k == -1 then -1 else k + 1
  }

  lemma {:induction false} ExceptMembers(s: seq<string>, avoid: set<string>)
    ensures forall x :: x in Except(s, avoid) <==> x in s && x !in avoid
    decreases |s|
  {
    if |s| > 0 {
      ExceptMembers(s[1..], avoid);
      assert s == [s[0]] + s[1..];
    }
  }

  /** Recent holds exactly the names of `refs`. */
  lemma {:induction false} RecentMembers(refs: seq<string>)
    ensures forall x :: x in Recent(refs) <==> x in refs
    decreases |refs|
  {
    if |refs| > 0 {
      var init, x := refs[..|refs| - 1], refs[|refs| - 1];
      RecentMembers(init);
      ExceptMembers(Recent(init), {x});
      assert refs == init + [x];
    }
  }

  lemma {:induction false} ExceptNoDuplicates(s: seq<string>, avoid: set<string>)
    requires NoDuplicates(s)
    ensures NoDuplicates(Except(s, avoid))
    decreases |s|
  {
    if |s| > 0 {
      var tail := s[1..];
      assert NoDuplicates(tail) by {
        assert forall i :: 0 <= i < |tail| ==> tail[i] == s[i + 1];
      }
      ExceptNoDuplicates(tail, avoid);
      ExceptMembers(tail, avoid);
      var r := Except(tail, avoid);
      assert s[0] !in tail;
      assert s[0] !in r;
      var front: seq<string> := if s[0] in avoid then [] else [s[0]];
      assert Except(s, avoid) == front + r;
      forall i, j | 0 <= i < j < |front + r|
        ensures (front + r)[i] != (front + r)[j]
      {
        if i >= |front| {
          assert (front + r)[i] == r[i - |front|] && (front + r)[j] == r[j - |front|];
        } else {
          assert (front + r)[j] in r;
        }
      }
    }
  }

  lemma {:induction false} ExceptAppend(a: seq<string>, b: seq<string>, avoid: set<string>)
    ensures Except(a + b, avoid) == Except(a, avoid) + Except(b, avoid)
    decreases |a|
  {
    if |a| > 0 {
      assert (a + b)[1..] == a[1..] + b;
      ExceptAppend(a[1..], b, avoid);
    } else {
      assert a + b == b;
    }
  }

  lemma {:induction false} ExceptExcept(s: seq<string>, first: set<string>, second: set<string>)
    ensures Except(Except(s, first), second) == Except(s, first + second)
    decreases |s|
  {
    if |s| > 0 {
      ExceptExcept(s[1..], first, second);
      var front: seq<string> := if s[0] in first then [] else [s[0]];
      ExceptAppend(front, Except(s[1..], first), second);
      if s[0] !in first {
        assert front[1..] == [];
      }
    }
  }

  lemma {:induction false} ExceptNothing(s: seq<string>, avoid: set<string>)
    requires forall x :: x in s ==> x !in avoid
    ensures Except(s, avoid) == s
    decreases |s|
  {
    if |s| > 0 {
      ExceptNothing(s[1..], avoid);
      assert s == [s[0]] + s[1..];
    }
  }

  lemma {:induction false} RecentNoDuplicates(refs: seq<string>)
    ensures NoDuplicates(Recent(refs))
    decreases |refs|
  {
    if |refs| > 0 {
      var x := refs[|refs| - 1];
      RecentNoDuplicates(refs[..|refs| - 1]);
      var rest := Except(Recent(refs[..|refs| - 1]), {x});
      ExceptNoDuplicates(Recent(refs[..|refs| - 1]), {x});
      ExceptMembers(Recent(refs[..|refs| - 1]), {x});
      assert x !in rest;
      forall i, j | 0 <= i < j < |[x] + rest|
        ensures ([x] + rest)[i] != ([x] + rest)[j]
      {
        if i > 0 {
          assert ([x] + rest)[i] == rest[i - 1] && ([x] + rest)[j] == rest[j - 1];
        } else {
          assert ([x] + rest)[j] in rest;
        }
      }
    }
  }

  /** The position of the last occurrence of `x` in `s`, or -1. */
  function LastIndex(s: seq<string>, x: string): (k: int)
    ensures -1 <= k < |s|
    decreases |s|
  {
    if |s| == 0 then -1
    else if s[|s| - 1] == x then |s| - 1
    else LastIndex(s[..|s| - 1], x)
  }

  /** LastIndex finds the last occurrence, and -1 exactly when there is none. */
  lemma {:induction false} LastIndexMeaning(s: seq<string>, x: string)
    ensures var k := LastIndex(s, x);
      && (k >= 0 ==> s[k] == x && forall j :: k < j < |s| ==> s[j] != x)
      && (k == -1 <==> x !in s)
    decreases |s|
  {
    if |s| > 0 && s[|s| - 1] != x {
      var init := s[..|s| - 1];
      LastIndexMeaning(init, x);
      assert s == init + [s[|s| - 1]];
    }
  }

  /** The names of `s` come in decreasing order of their last occurrence in `refs`. */
  predicate ByLastOccurrence(s: seq<string>, refs: seq<string>) {
    forall i, j :: 0 <= i < j < |s| ==> LastIndex(refs, s[i]) > LastIndex(refs, s[j])
  }

  lemma {:induction false} ExceptKeepsOrder(s: seq<string>, avoid: set<string>, refs: seq<string>)
    requires ByLastOccurrence(s, refs)
    ensures ByLastOccurrence(Except(s, avoid), refs)
    decreases |s|
  {
    if |s| > 0 {
      OrderedTail(s, refs);
      ExceptKeepsOrder(s[1..], avoid, refs);
      if s[0] !in avoid {
        var r := Except(s[1..], avoid);
        ExceptMembers(s[1..], avoid);
        forall k | 0 <= k < |r|
          ensures LastIndex(refs, s[0]) > LastIndex(refs, r[k])
        {
          assert r[k] in r;
        }
        InFront(s[0], r, refs);
      }
    }
  }

  /** The tail of an ordered list is ordered and comes after its head. */
  lemma OrderedTail(s: seq<string>, refs: seq<string>)
    requires |s| > 0 && ByLastOccurrence(s, refs)
    ensures ByLastOccurrence(s[1..], refs)
    ensures forall y :: y in s[1..] ==> LastIndex(refs, s[0]) > LastIndex(refs, y)
  {
    var tail := s[1..];
    assert forall i :: 0 <= i < |tail| ==> tail[i] == s[i + 1];
  }

  /** A name cited last after every name of an ordered list may go in front of it. */
  lemma InFront(x: string, r: seq<string>, refs: seq<string>)
    requires ByLastOccurrence(r, refs)
    requires forall k :: 0 <= k < |r| ==> LastIndex(refs, x) > LastIndex(refs, r[k])
    ensures ByLastOccurrence([x] + r, refs)
  {
    forall i, j | 0 <= i < j < |[x] + r|
      ensures LastIndex(refs, ([x] + r)[i]) > LastIndex(refs, ([x] + r)[j])
    {
      var a, b := ([x] + r)[i], ([x] + r)[j];
      assert b == r[j - 1];
      if i > 0 {
        assert a == r[i - 1];
      } else {
        assert a == x;
      }
    }
  }

  /** A name other than the one appended keeps its last occurrence. */
  lemma LastIndexSnoc(init: seq<string>, x: string, y: string)
    ensures LastIndex(init + [x], x) == |init|
    ensures y != x ==> LastIndex(init + [x], y) == LastIndex(init, y)
  {
    assert (init + [x])[..|init|] == init;
  }

  /** Recent puts a name before another exactly when the first was cited last more recently:
      the order of the chips on top of the list. */
  lemma {:induction false} RecentByLastOccurrence(refs: seq<string>)
    ensures ByLastOccurrence(Recent(refs), refs)
    decreases |refs|
  {
    if |refs| > 0 {
      var init, x := refs[..|refs| - 1], refs[|refs| - 1];
      assert refs == init + [x];
      RecentByLastOccurrence(init);
      ExceptKeepsOrder(Recent(init), {x}, init);
      ExceptMembers(Recent(init), {x});
      RecentMembers(init);
      ConsByLastOccurrence(init, x, Except(Recent(init), {x}));
    }
  }

  /** The name just cited goes in front of names cited before it. */
  lemma ConsByLastOccurrence(init: seq<string>, x: string, e: seq<string>)
    requires ByLastOccurrence(e, init)
    requires forall y :: y in e ==> y != x && y in init
    ensures ByLastOccurrence([x] + e, init + [x])
  {
    forall i, j | 0 <= i < j < |[x] + e|
      ensures LastIndex(init + [x], ([x] + e)[i]) > LastIndex(init + [x], ([x] + e)[j])
    {
      var a, b := ([x] + e)[i], ([x] + e)[j];
      assert b == e[j - 1] && b in e;
      LastIndexSnoc(init, x, b);
      if i > 0 {
        assert a == e[i - 1] && a in e;
        LastIndexSnoc(init, x, a);
      } else {
        LastIndexSnoc(init, x, x);
      }
    }
  }

  /** Removing the element at its only position is removing it by value. */
  lemma {:induction false} RemoveAtIsExcept(s: seq<string>, k: nat)
    requires NoDuplicates(s) && k < |s|
    ensures s[..k] + s[k + 1..] == Except(s, {s[k]})
    decreases |s|
  {
    if k == 0 {
      var tail := s[1..];
      assert forall x :: x in tail ==> x != s[0] by {
        forall x | x in tail
          ensures x != s[0]
        {
          var j :| 0 <= j < |tail| && tail[j] == x;
          assert s[j + 1] == x;
        }
      }
      ExceptNothing(tail, {s[0]});
    } else {
      var tail := s[1..];
      assert NoDuplicates(tail) by {
        assert forall i :: 0 <= i < |tail| ==> tail[i] == s[i + 1];
      }
      assert tail[k - 1] == s[k];
      RemoveAtIsExcept(tail, k - 1);
      assert s[..k] + s[k + 1..] == [s[0]] + (tail[..k - 1] + tail[k..]);
      assert s[0] != s[k];
    }
  }

  lemma NoDuplicatesConcat(front: seq<string>, back: seq<string>)
    requires NoDuplicates(front) && NoDuplicates(back)
    requires forall x :: x in front ==> x !in back
    ensures NoDuplicates(front + back)
  {
    forall i, j | 0 <= i < j < |front + back|
      ensures (front + back)[i] != (front + back)[j]
    {
      if j < |front| {
        assert (front + back)[i] == front[i] && (front + back)[j] == front[j];
      } else if i >= |front| {
        assert (front + back)[i] == back[i - |front|] && (front + back)[j] == back[j - |front|];
      } else {
        assert (front + back)[i] in front;
        assert (front + back)[j] in back;
      }
    }
  }

  /** A list of the shape `addCitation` leaves holds every name once. */
  lemma ReflectsNoDuplicates(chips: seq<string>, refs: seq<string>)
    requires NoDuplicates(chips)
    ensures NoDuplicates(Recent(refs) + Except(chips, Elems(refs)))
  {
    RecentNoDuplicates(refs);
    ExceptNoDuplicates(chips, Elems(refs));
    RecentMembers(refs);
    ExceptMembers(chips, Elems(refs));
    NoDuplicatesConcat(Recent(refs), Except(chips, Elems(refs)));
  }

  lemma RecentSnoc(refs: seq<string>, fn: string)
    ensures Recent(refs + [fn]) == [fn] + Except(Recent(refs), {fn})
    ensures Elems(refs + [fn]) == Elems(refs) + {fn}
  {
    var longer := refs + [fn];
    assert longer[..|longer| - 1] == refs && longer[|longer| - 1] == fn;
  }

  /** One step of `files.forEach`: moving `fn` to the top of a list that reflects the first names
      gives the list that reflects one name more. */
  lemma MoveToFrontStep(chips: seq<string>, refs: seq<string>, fn: string)
    ensures [fn] + Except(Recent(refs) + Except(chips, Elems(refs)), {fn})
         == Recent(refs + [fn]) + Except(chips, Elems(refs + [fn]))
  {
    var front, back := Recent(refs), Except(chips, Elems(refs));
    RecentSnoc(refs, fn);
    ExceptAppend(front, back, {fn});
    ExceptExcept(chips, Elems(refs), {fn});
    var f, b := Except(front, {fn}), Except(chips, Elems(refs) + {fn});
    assert Except(front + back, {fn}) == f + b;
    assert Recent(refs + [fn]) + Except(chips, Elems(refs + [fn])) == ([fn] + f) + b;
    AppendAssoc([fn], f, b);
  }

  lemma TakeOneMore(s: seq<string>, i: nat)
    requires i < |s|
    ensures s[..i + 1] == s[..i] + [s[i]]
  {
  }

  lemma AppendAssoc(a: seq<string>, b: seq<string>, c: seq<string>)
    ensures a + (b + c) == (a + b) + c
  {
  }

  /** Putting `fn` on top of a duplicate-free list, once, keeps it duplicate-free. */
  lemma OnTopNoDuplicates(names: seq<string>, fn: string)
    requires NoDuplicates(names)
    ensures NoDuplicates([fn] + Except(names, {fn}))
  {
    ExceptNoDuplicates(names, {fn});
    ExceptMembers(names, {fn});
    NoDuplicatesConcat([fn], Except(names, {fn}));
  }

  /** The chip list of the sources container: file names, top first. */
  class ChipList {
    var names: seq<string>

    ghost predicate Valid()
      reads this
    {
      NoDuplicates(names)
    }

    constructor ()
      ensures Valid() && names == []
    {
      names := [];
    }

    /** The body of `files.forEach` for one name: the existing chip for `fn`, if any, is taken
        out (`removeChild`), and the chip is inserted at the top (`insertBefore` the first child). */
    method MoveToTop(fn: string)
      requires Valid()
      modifies this
      ensures Valid()
      ensures names == [fn] + Except(old(names), {fn})
    {
      var existing := IndexOf(names, fn);
      if existing >= 0 {
        RemoveAtIsExcept(names, existing);
        names := names[..existing] + names[existing + 1..];
      } else {
        ExceptNothing(names, {fn});
      }
      OnTopNoDuplicates(old(names), fn);
      names := [fn] + names;
    }

    /** `addCitation(refs)`: each name in turn is moved (or added) to the top. Afterwards the cited
        names sit at the top, most recently cited first, each once, and every other chip keeps
        its relative order below them. */
    method AddCitation(refs: Refs)
      requires Valid()
      modifies this
      ensures Valid()
      ensures names == Recent(Files(refs)) + Except(old(names), Elems(Files(refs)))
    {
      var files := Files(refs);
      ghost var chips, cited := names, [];
      assert Elems(cited) == {};
      ExceptNothing(names, {});
      var i := 0;
      while i < |files|
        invariant 0 <= i <= |files| && cited == files[..i]
        invariant Valid()
        invariant names == Recent(cited) + Except(chips, Elems(cited))
      {
        var fn := files[i];
        MoveToTop(fn);
        MoveToFrontStep(chips, cited, fn);
        TakeOneMore(files, i);
        cited := cited + [fn];
        i := i + 1;
      }
      assert files[..|files|] == files;
    }
  }
}
