/** Sequences joined by a separator and cut at it again, C strings, and sequences of one element. */
module Splitting {

  function Copies<T>(x: T, n: nat): (r: seq<T>)
    ensures |r| == n && forall i :: 0 <= i < n ==> r[i] == x
  {
    seq(n, _ => x)
  }

  /** Everything before the first c: with NUL for c, the C string that starts at s. */
  function Until<T(==)>(s: seq<T>, c: T): (r: seq<T>)
    ensures r <= s && c !in r
    ensures |r| < |s| ==> s[|r|] == c
  {
    if s == [] || s[0] == c then [] else [s[0]] + Until(s[1..], c)
  }

  lemma UntilUnique<T>(s: seq<T>, c: T, r: seq<T>)
    requires r <= s && c !in r && (|r| < |s| ==> s[|r|] == c)
    ensures Until(s, c) == r
  {
  }

  /** No part holds the separator. */
  ghost predicate Free<T>(ls: seq<seq<T>>, b: T) {
    forall i :: 0 <= i < |ls| ==> b !in ls[i]
  }

  /** The parts with c between neighbours. */
  ghost function Joined<T>(ls: seq<seq<T>>, c: T): seq<T> {
    if ls == [] then []
    else if |ls| == 1 then ls[0]
    else ls[0] + [c] + Joined(ls[1..], c)
  }

  /** Without separators inside the parts the text determines the first part and the rest. */
  lemma {:induction false} FirstPartDetermined<T>(l: seq<T>, r: seq<T>, l': seq<T>, r': seq<T>, c: T)
    requires c !in l && c !in l'
    requires l + r == l' + r'
    requires (r == [] || r[0] == c) && (r' == [] || r'[0] == c)
    ensures l == l' && r == r'
  {
    var w := l + r;
    assert forall i :: 0 <= i < |l| ==> w[i] == l[i] && l[i] in l;
    assert forall i :: 0 <= i < |l'| ==> w[i] == l'[i] && l'[i] in l';
    assert r != [] ==> w[|l|] == c;
    assert r' != [] ==> w[|l'|] == c;
    assert |l| == |l'|;
    assert l == (l + r)[..|l|] && l' == (l' + r')[..|l'|];
    assert r == (l + r)[|l|..] && r' == (l' + r')[|l'|..];
  }

  /** What stands behind the first part. */
  ghost function JoinedRest<T>(ls: seq<seq<T>>, c: T): seq<T>
    requires ls != []
  {
    if |ls| == 1 then [] else [c] + Joined(ls[1..], c)
  }

  lemma JoinedFirst<T>(ls: seq<seq<T>>, c: T)
    requires ls != []
    ensures var r := JoinedRest(ls, c);
            && Joined(ls, c) == ls[0] + r && (|ls| == 1 <==> r == [])
            && (r != [] ==> r[0] == c && r[1..] == Joined(ls[1..], c))
  {
    if |ls| > 1 {
      Reassociate(ls[0], [c], Joined(ls[1..], c));
    }
  }

  lemma {:induction false} JoinedInjective<T>(ls: seq<seq<T>>, ms: seq<seq<T>>, c: T)
    requires ls == [] <==> ms == []
    requires Free(ls, c) && Free(ms, c)
    requires Joined(ls, c) == Joined(ms, c)
    ensures ls == ms
  {
    if ls != [] {
      var r, r' := JoinedRest(ls, c), JoinedRest(ms, c);
      JoinedFirst(ls, c);
      JoinedFirst(ms, c);
      hide Joined, JoinedRest;
      FirstPartDetermined(ls[0], r, ms[0], r', c);
      if |ls| > 1 {
        JoinedInjective(ls[1..], ms[1..], c);
      }
      assert ls == [ls[0]] + ls[1..] && ms == [ms[0]] + ms[1..];
    }
  }

  /** A text cut at every c. */
  ghost function Pieces<T>(l: seq<T>, c: T): (r: seq<seq<T>>)
    ensures r != [] && Free(r, c)
  {
    if l == [] then [[]]
    else if l[0] == c then [[]] + Pieces(l[1..], c)
    else [[l[0]] + Pieces(l[1..], c)[0]] + Pieces(l[1..], c)[1..]
  }

  ghost function AllPieces<T>(ls: seq<seq<T>>, c: T): (r: seq<seq<T>>)
    ensures Free(r, c) && (r == [] <==> ls == [])
  {
    if ls == [] then [] else Pieces(ls[0], c) + AllPieces(ls[1..], c)
  }

  lemma {:induction false} JoinedPieces<T>(l: seq<T>, c: T)
    ensures Joined(Pieces(l, c), c) == l
  {
    if l != [] {
      var rest := Pieces(l[1..], c);
      JoinedPieces(l[1..], c);
      if l[0] == c {
        assert Pieces(l, c)[1..] == rest;
      } else {
        assert Pieces(l, c)[1..] == rest[1..];
      }
    }
  }

  lemma {:induction false} JoinedAppend<T>(a: seq<seq<T>>, b: seq<seq<T>>, c: T)
    requires a != [] && b != []
    ensures Joined(a + b, c) == Joined(a, c) + [c] + Joined(b, c)
  {
    assert (a + b)[1..] == a[1..] + b;
    if |a| > 1 {
      JoinedAppend(a[1..], b, c);
    }
  }

  lemma {:induction false} JoinedAllPieces<T>(ls: seq<seq<T>>, c: T)
    ensures Joined(AllPieces(ls, c), c) == Joined(ls, c)
  {
    if ls != [] {
      JoinedPieces(ls[0], c);
      JoinedAllPieces(ls[1..], c);
      if |ls| == 1 {
        assert AllPieces(ls, c) == Pieces(ls[0], c);
      } else {
        JoinedAppend(Pieces(ls[0], c), AllPieces(ls[1..], c), c);
      }
    }
  }

  /** Cutting a joined text gives back the parts it was joined from. */
  lemma PiecesOfJoined<T>(ls: seq<seq<T>>, c: T)
    requires ls != [] && Free(ls, c)
    ensures Pieces(Joined(ls, c), c) == ls
  {
    JoinedPieces(Joined(ls, c), c);
    JoinedInjective(Pieces(Joined(ls, c), c), ls, c);
  }

  lemma Reassociate<T>(a: seq<T>, b: seq<T>, c: seq<T>)
    ensures a + (b + c) == a + b + c
  {
  }
}
