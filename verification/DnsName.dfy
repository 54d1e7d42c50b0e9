/** Domain names: their wire form (RFC 1035 section 3.1) and their dotted text. */
module DnsNames {
  import opened Splitting

  type byte = x: int | 0 <= x < 0x100
  type word = x: int | 0 <= x < 0x1_0000
  type dword = x: int | 0 <= x < 0x1_0000_0000

  /** The value kept by a 16-bit, respectively 8-bit, unsigned variable. */
  function Wrap(x: nat): (r: word)
    ensures x < 0x1_0000 ==> r == x
  {
    x % 0x1_0000
  }

  function Cut(x: nat): (r: byte)
    ensures x < 0x100 ==> r == x
  {
    x % 0x100
  }

  /** What they drop is a multiple of their range. */
  lemma RangesWrap(x: nat)
    ensures exists k: nat :: x - Wrap(x) == k * 65536
    ensures exists k: nat :: x - Cut(x) == k * 256
  {
    assert x - Wrap(x) == (x / 65536) * 65536;
    assert x - Cut(x) == (x / 256) * 256;
  }

  const MAX_LABEL_LENGTH: byte := 0x3F
  const MIN_POINTER_VALUE: byte := 0xC0
  const MAX_LABELS_LENGTH: byte := 0xFF
  const DOT: byte := 46

  type Labels = seq<seq<byte>>

  ghost predicate IsLabel(l: seq<byte>) {
    1 <= |l| <= MAX_LABEL_LENGTH
  }

  ghost predicate AreLabels(ls: Labels) {
    forall i :: 0 <= i < |ls| ==> IsLabel(ls[i])
  }

  ghost function LengthOctet(l: seq<byte>): byte {
    if |l| <= 255 then |l| else 0
  }

  /** The wire form of the labels, without the terminator: each label behind its length. */
  ghost function Encoded(ls: Labels): seq<byte> {
    if ls == [] then [] else [LengthOctet(ls[0])] + ls[0] + Encoded(ls[1..])
  }

  /** The labels, each behind the octet c. */
  ghost function Dotted(ls: Labels, c: byte): seq<byte> {
    if ls == [] then [] else [c] + ls[0] + Dotted(ls[1..], c)
  }

  ghost function WireSize(ls: Labels): nat {
    |Encoded(ls)| + 1
  }

  lemma {:induction false} DottedLength(ls: Labels, c: byte)
    ensures |Dotted(ls, c)| == |Encoded(ls)|
  {
    if ls != [] {
      DottedLength(ls[1..], c);
    }
  }

  lemma {:induction false} DottedIsJoined(ls: Labels, c: byte)
    requires ls != []
    ensures Dotted(ls, c) == [c] + Joined(ls, c)
  {
    if |ls| > 1 {
      DottedIsJoined(ls[1..], c);
    } else {
      assert ls[1..] == [];
    }
  }

  lemma {:induction false} DottedFree(ls: Labels, c: byte, b: byte)
    requires Free(ls, b) && b != c
    ensures b !in Dotted(ls, c)
  {
    if ls != [] {
      assert forall i :: 0 <= i < |ls[1..]| ==> ls[1..][i] == ls[i + 1];
      DottedFree(ls[1..], c, b);
    }
  }

  /** The C string that starts at an octet sequence. */
  function CString(s: seq<byte>): (r: seq<byte>)
    ensures r <= s && 0 !in r
    ensures |r| < |s| ==> s[|r|] == 0
  {
    Until(s, 0)
  }

  lemma CStringUnique(s: seq<byte>, r: seq<byte>)
    requires r <= s && 0 !in r && (|r| < |s| ==> s[|r|] == 0)
    ensures CString(s) == r
  {
    UntilUnique(s, 0, r);
  }

  // ----- the text under which a name is kept: its labels joined by dots, as a C string -----

  ghost function NameText(ls: Labels): seq<byte> {
    CString(Joined(ls, DOT))
  }

  /** The labels up to the first NUL in any of them. */
  ghost function UpToNul(ls: Labels): (r: Labels)
    ensures r == [] <==> ls == []
    ensures Free(r, 0)
  {
    if ls == [] then []
    else if 0 in ls[0] then [CString(ls[0])]
    else [ls[0]] + UpToNul(ls[1..])
  }

  lemma CStringOfPrefix(j: seq<byte>, rest: seq<byte>)
    requires 0 in j || (rest != [] ==> rest[0] == 0)
    ensures CString(j + rest) == CString(j)
  {
    CStringUnique(j + rest, CString(j));
  }

  lemma CStringBehind(l: seq<byte>, rest: seq<byte>)
    requires 0 !in l
    ensures CString(l + rest) == l + CString(rest)
  {
    CStringUnique(l + rest, l + CString(rest));
  }

  lemma {:induction false} TextUpToNul(ls: Labels)
    ensures NameText(ls) == Joined(UpToNul(ls), DOT)
  {
    if ls == [] {
    } else if 0 in ls[0] {
      if |ls| > 1 {
        Reassociate(ls[0], [DOT], Joined(ls[1..], DOT));
        CStringOfPrefix(ls[0], [DOT] + Joined(ls[1..], DOT));
      }
    } else if |ls| == 1 {
      CStringUnique(ls[0], ls[0]);
    } else {
      TextUpToNul(ls[1..]);
      CStringBehind(ls[0] + [DOT], Joined(ls[1..], DOT));
    }
  }

  /** What a name's text says about it: the pieces of its labels between dots, taken up to the first NUL.  The
      root has the one piece that is empty. */
  ghost function TextPieces(ls: Labels): (r: Labels)
    ensures r != [] && Free(r, DOT)
  {
    if ls == [] then [[]] else AllPieces(UpToNul(ls), DOT)
  }

  /** For any two names, the root included: they share their text exactly when they have the same pieces up to
      the first NUL. */
  lemma SharedText(ls: Labels, ms: Labels)
    ensures NameText(ls) == NameText(ms) <==> TextPieces(ls) == TextPieces(ms)
  {
    TextOfPieces(ls);
    TextOfPieces(ms);
    if NameText(ls) == NameText(ms) {
      JoinedInjective(TextPieces(ls), TextPieces(ms), DOT);
    }
  }

  lemma TextOfPieces(ls: Labels)
    ensures NameText(ls) == Joined(TextPieces(ls), DOT)
  {
    TextUpToNul(ls);
    JoinedAllPieces(UpToNul(ls), DOT);
  }

  /** Names whose labels hold neither dot nor NUL have the same text only if they are the same name; only the
      root has the empty text. */
  lemma NamesDetermined(ls: Labels, ms: Labels)
    requires AreLabels(ls) && AreLabels(ms)
    requires Free(ls, DOT) && Free(ms, DOT) && Free(ls, 0) && Free(ms, 0)
    ensures NameText(ls) == NameText(ms) <==> ls == ms
  {
    CleanText(ls);
    CleanText(ms);
    assert ls != [] ==> IsLabel(ls[0]);
    assert ms != [] ==> IsLabel(ms[0]);
    if Joined(ls, DOT) == Joined(ms, DOT) {
      JoinedInjective(ls, ms, DOT);
    }
  }

  lemma CleanText(ls: Labels)
    requires Free(ls, 0)
    ensures NameText(ls) == Joined(ls, DOT)
  {
    if ls != [] {
      DottedFree(ls, DOT, 0);
      DottedIsJoined(ls, DOT);
    }
    CStringUnique(Joined(ls, DOT), Joined(ls, DOT));
  }

  /** Two different names with one text: they differ only behind a NUL. */
  lemma DifferentNamesShareText(a: byte, b: byte, c: byte)
    requires a != 0 && b != c
    ensures AreLabels([[a, 0, b]]) && AreLabels([[a, 0, c]]) && [[a, 0, b]] != [[a, 0, c]]
    ensures NameText([[a, 0, b]]) == NameText([[a, 0, c]]) == [a]
  {
    assert [[a, 0, b]][0] != [[a, 0, c]][0] by { assert [a, 0, b][2] != [a, 0, c][2]; }
    CStringUnique([a, 0, b], [a]);
    CStringUnique([a, 0, c], [a]);
  }
}
