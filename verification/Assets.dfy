/** The asset string of the RPC server: cleaned command outputs in "name:value;" pairs. */
module Assets {
  import opened Splitting

  const KEY_VALUE_SEPARATOR := ':'
  const PAIR_SEPARATOR := ';'

  // isspace in the C locale
  predicate IsSpace(c: char) {
    c == ' ' || '\t' <= c <= '\r'
  }

  // ----- StringReplace -----

  /** No character of s is one of chars. */
  predicate FreeOf(s: string, chars: string) {
    forall i :: 0 <= i < |s| ==> s[i] !in chars
  }

  /** From the left: where a character of sub stands, as many characters as sub has, or as are left, give way to
      dst. */
  function Substituted(s: string, sub: string, dst: string): string
    decreases |s|
  {
    if s == "" then ""
    else if s[0] in sub then
      assert sub != "";
      dst + Substituted(if |sub| <= |s| then s[|sub|..] else "", sub, dst)
    else [s[0]] + Substituted(s[1..], sub, dst)
  }

  lemma {:induction false} SubstitutedBehind(a: string, s: string, sub: string, dst: string)
    requires FreeOf(a, sub)
    ensures Substituted(a + s, sub, dst) == a + Substituted(s, sub, dst)
  {
    if a == "" {
      assert a + s == s;
    } else {
      assert (a + s)[1..] == a[1..] + s;
      SubstitutedBehind(a[1..], s, sub, dst);
    }
  }

  /** What is replaced: nothing in a text free of the set; and from its first character of the set on as many
      characters as the set has, or as are left, after which the rest is replaced likewise. */
  lemma ReplacedFromTheLeft(a: string, cut: string, rest: string, sub: string, dst: string)
    requires FreeOf(a, sub)
    ensures Substituted(a, sub, dst) == a
    ensures cut != "" && cut[0] in sub && (|cut| == |sub| || (|cut| < |sub| && rest == "")) ==>
              Substituted(a + cut + rest, sub, dst) == a + dst + Substituted(rest, sub, dst)
  {
    SubstitutedBehind(a, "", sub, dst);
    assert a + "" == a;
    Reassociate(a, cut, rest);
    SubstitutedBehind(a, cut + rest, sub, dst);
    assert |cut| == |sub| ==> (cut + rest)[|sub|..] == rest;
    Reassociate(a, dst, Substituted(rest, sub, dst));
  }

  function AnyCount(s: string, sub: string): nat {
    if s == "" then 0 else AnyCount(s[1..], sub) + if s[0] in sub then 1 else 0
  }

  lemma {:induction false} AnyCountAppend(a: string, b: string, sub: string)
    ensures AnyCount(a + b, sub) == AnyCount(a, sub) + AnyCount(b, sub)
  {
    if a == "" {
      assert a + b == b;
    } else {
      assert (a + b)[1..] == a[1..] + b;
      AnyCountAppend(a[1..], b, sub);
    }
  }

  lemma {:induction false} NoneCounted(s: string, sub: string)
    requires FreeOf(s, sub)
    ensures AnyCount(s, sub) == 0
  {
    if s != "" {
      NoneCounted(s[1..], sub);
    }
  }

  // std::string::find_first_of; |s| is npos
  method FindFirstOf(s: string, sub: string, from: nat) returns (pos: nat)
    requires from <= |s|
    ensures from <= pos <= |s| && FreeOf(s[from..pos], sub)
    ensures pos < |s| ==> s[pos] in sub
  {
    pos := from;
    while pos < |s| && s[pos] !in sub
      invariant from <= pos <= |s| && FreeOf(s[from..pos], sub)
    {
      assert s[from..pos + 1] == s[from..pos] + [s[pos]];
      pos := pos + 1;
    }
  }

  // std::string::replace
  function Spliced(s: string, pos: nat, n: nat, dst: string): string
    requires pos <= |s|
  {
    s[..pos] + dst + if pos + n <= |s| then s[pos + n..] else ""
  }

  /** One pass: what is still to be substituted stays the same, with one character of sub less. */
  lemma PassProgress(s: string, pos: nat, sub: string, dst: string)
    requires pos < |s| && s[pos] in sub && FreeOf(dst, sub)
    ensures var s' := Spliced(s, pos, |sub|, dst);
            && pos <= |s'| && s'[..pos] == s[..pos]
            && Substituted(s'[pos..], sub, dst) == Substituted(s[pos..], sub, dst)
            && AnyCount(s'[pos..], sub) < AnyCount(s[pos..], sub)
  {
    var tail := s[pos..];
    var rest := if |sub| <= |tail| then tail[|sub|..] else "";
    var cut := if |sub| <= |tail| then tail[..|sub|] else tail;
    assert Spliced(s, pos, |sub|, dst)[pos..] == dst + rest;
    SubstitutedBehind(dst, rest, sub, dst);
    assert tail == cut + rest && cut[0] in sub;
    AnyCountAppend(cut, rest, sub);
    AnyCountAppend(dst, rest, sub);
    NoneCounted(dst, sub);
  }

  /** Every occurrence gives way.  The loop ends whenever dst holds no character of sub, or text none. */
  method StringReplace(text: string, sub: string, dst: string) returns (str: string)
    requires FreeOf(dst, sub) || FreeOf(text, sub)
    ensures str == Substituted(text, sub, dst)
  {
    hide Spliced, Substituted, AnyCount;
    str := text;
    var pos := 0;
    assert str[..0] + Substituted(str[0..], sub, dst) == Substituted(text, sub, dst) by { assert str[0..] == str; }
    while true
      invariant pos <= |str|
      invariant FreeOf(dst, sub) || str == text
      invariant str[..pos] + Substituted(str[pos..], sub, dst) == Substituted(text, sub, dst)
      decreases AnyCount(str[pos..], sub), |str| - pos
    {
      var next := FindFirstOf(str, sub, pos);
      Passed(str, pos, next, sub, dst);
      pos := next;
      if pos == |str| {
        break;
      }
      assert !FreeOf(text, sub) || str != text;
      PassProgress(str, pos, sub, dst);
      str := Spliced(str, pos, |sub|, dst);
    }
    assert Substituted("", sub, dst) == "" by { NothingSubstituted(sub, dst); }
    assert str[..pos] == str && str[pos..] == "";
  }

  lemma NothingSubstituted(sub: string, dst: string)
    ensures Substituted("", sub, dst) == ""
  {
  }

  lemma Passed(s: string, pos: nat, next: nat, sub: string, dst: string)
    requires pos <= next <= |s| && FreeOf(s[pos..next], sub)
    ensures s[..pos] + Substituted(s[pos..], sub, dst) == s[..next] + Substituted(s[next..], sub, dst)
    ensures AnyCount(s[next..], sub) == AnyCount(s[pos..], sub)
  {
    assert s[pos..] == s[pos..next] + s[next..];
    SubstitutedBehind(s[pos..next], s[next..], sub, dst);
    AnyCountAppend(s[pos..next], s[next..], sub);
    NoneCounted(s[pos..next], sub);
    assert s[..next] == s[..pos] + s[pos..next];
  }

  /** Otherwise it never ends: each pass puts back a character that the next pass finds. */
  lemma PassesForever(s: string, pos: nat, sub: string, dst: string)
    requires pos < |s| && s[pos] in sub && !FreeOf(dst, sub)
    ensures var s' := Spliced(s, pos, |sub|, dst);
            pos < |s'| && !FreeOf(s'[pos..], sub)
  {
    var i :| 0 <= i < |dst| && dst[i] in sub;
    assert Spliced(s, pos, |sub|, dst)[pos..][i] == dst[i];
  }

  // ----- for a single character -----

  /** White space is what the C locale takes for it: tab, line feed, vertical tab, form feed, carriage return, blank. */
  lemma WhiteSpace(c: char)
    ensures IsSpace(c) <==> c as int in [9, 10, 11, 12, 13, 32]
  {
  }

  function Replaced(s: string, sub: char, dst: char): (r: string)
    ensures |r| == |s| && forall i :: 0 <= i < |s| ==> r[i] == if s[i] == sub then dst else s[i]
  {
    seq(|s|, i requires 0 <= i < |s| => if s[i] == sub then dst else s[i])
  }

  /** A single character is replaced wherever it stands, and nothing else changes. */
  lemma {:induction false} SingleCharacter(s: string, sub: char, dst: char)
    ensures Substituted(s, [sub], [dst]) == Replaced(s, sub, dst)
  {
    if s != "" {
      SingleCharacter(s[1..], sub, dst);
    }
  }

  // ----- StringStrip -----

  /** r is the part of s from k on that begins and ends with no white space and leaves only white space out. */
  ghost predicate StrippedAt(s: string, r: string, k: nat) {
    && k + |r| <= |s| && s[k..k + |r|] == r
    && (r != [] ==> !IsSpace(r[0]) && !IsSpace(r[|r| - 1]))
    && forall i :: 0 <= i < |s| && !IsSpace(s[i]) ==> k <= i < k + |r|
  }

  ghost predicate IsStripped(s: string, r: string) {
    exists k: nat :: StrippedAt(s, r, k)
  }

  lemma StrippedUnique(s: string, r: string, r': string)
    requires IsStripped(s, r) && IsStripped(s, r')
    ensures r == r'
  {
    var k: nat :| StrippedAt(s, r, k);
    var j: nat :| StrippedAt(s, r', j);
    assert r != [] ==> s[k] == r[0] && s[k + |r| - 1] == r[|r| - 1];
    assert r' != [] ==> s[j] == r'[0] && s[j + |r'| - 1] == r'[|r'| - 1];
  }

  function Stripped(s: string): (r: string)
    ensures IsStripped(s, r)
  {
    if s == "" then
      assert StrippedAt(s, "", 0);
      ""
    else if IsSpace(s[0]) then
      var r := Stripped(s[1..]);
      PadLeft(s, r);
      r
    else if IsSpace(s[|s| - 1]) then
      var r := Stripped(s[..|s| - 1]);
      PadRight(s, r);
      r
    else
      assert StrippedAt(s, s, 0);
      s
  }

  lemma PadLeft(s: string, r: string)
    requires s != [] && IsSpace(s[0]) && IsStripped(s[1..], r)
    ensures IsStripped(s, r)
  {
    var t := s[1..];
    var k: nat :| StrippedAt(t, r, k);
    assert forall i :: 1 <= i < |s| ==> s[i] == t[i - 1];
    assert StrippedAt(s, r, k + 1);
  }

  lemma PadRight(s: string, r: string)
    requires s != [] && IsSpace(s[|s| - 1]) && IsStripped(s[..|s| - 1], r)
    ensures IsStripped(s, r)
  {
    var t := s[..|s| - 1];
    var k: nat :| StrippedAt(t, r, k);
    assert forall i :: 0 <= i < |t| ==> s[i] == t[i];
    assert StrippedAt(s, r, k);
  }

  method StringStrip(text: string) returns (str: string)
    ensures str == Stripped(text)
  {
    var start, end := -1, -1;  // npos
    for i := 0 to |text|
      invariant start == -1 <==> end == -1
      invariant start != -1 ==> 0 <= start <= end < i && !IsSpace(text[start]) && !IsSpace(text[end])
      invariant forall j :: 0 <= j < i && !IsSpace(text[j]) ==> start != -1 && start <= j <= end
    {
      if !IsSpace(text[i]) {
        if start == -1 {
          start := i;
        }
        end := i;
      }
    }
    if start != -1 && end != -1 {
      str := text[start..start + (end - start + 1)];
      assert StrippedAt(text, str, start);
    } else {
      str := "";
      assert StrippedAt(text, str, 0);
    }
    StrippedUnique(text, str, Stripped(text));
  }

  // ----- the pairs -----

  /** The value as it goes into the asset string. */
  function Cleaned(value: string): string {
    Stripped(Replaced(Replaced(value, KEY_VALUE_SEPARATOR, ' '), PAIR_SEPARATOR, ' '))
  }

  /** That is the value with a blank for each ':' and ';', stripped of white space. */
  lemma CleanedExactly(value: string, blanked: string)
    requires |blanked| == |value|
    requires forall i :: 0 <= i < |value| ==> blanked[i] == if value[i] == ':' || value[i] == ';' then ' ' else value[i]
    ensures IsStripped(blanked, Cleaned(value))
    ensures forall r :: IsStripped(blanked, r) ==> r == Cleaned(value)
  {
    hide IsStripped;
    assert blanked == Replaced(Replaced(value, KEY_VALUE_SEPARATOR, ' '), PAIR_SEPARATOR, ' ');
    forall r | IsStripped(blanked, r) ensures r == Cleaned(value) {
      StrippedUnique(blanked, r, Cleaned(value));
    }
  }

  function Pair(name: string, value: string): string {
    name + [KEY_VALUE_SEPARATOR] + Cleaned(value) + [PAIR_SEPARATOR]
  }

  datatype Asset = Asset(name: string, value: string)

  function Assembled(assets: seq<Asset>): string {
    if assets == [] then ""
    else Assembled(assets[..|assets| - 1]) + Pair(assets[|assets| - 1].name, assets[|assets| - 1].value)
  }

  lemma SixPairs(assets: seq<Asset>, before: string)
    requires |assets| == 6
    ensures before + Assembled(assets)
         == before + Pair(assets[0].name, assets[0].value) + Pair(assets[1].name, assets[1].value)
            + Pair(assets[2].name, assets[2].value) + Pair(assets[3].name, assets[3].value)
            + Pair(assets[4].name, assets[4].value) + Pair(assets[5].name, assets[5].value)
  {
    hide Pair, Assembled;
    assert before + Assembled([]) == before by { AssembledNone(); }
    AssembledNext(assets, 0, before);
    AssembledNext(assets, 1, before);
    AssembledNext(assets, 2, before);
    AssembledNext(assets, 3, before);
    AssembledNext(assets, 4, before);
    AssembledNext(assets, 5, before);
    assert assets[..6] == assets && assets[..0] == [];
  }

  lemma AssembledNone()
    ensures Assembled([]) == ""
  {
  }

  lemma AssembledNext(assets: seq<Asset>, i: nat, before: string)
    requires i < |assets|
    ensures before + Assembled(assets[..i + 1])
         == before + Assembled(assets[..i]) + Pair(assets[i].name, assets[i].value)
  {
    assert assets[..i + 1][..i] == assets[..i];
  }

  const NAMES: seq<string> := ["host", "cpu", "memory", "baseboard", "sound", "video"]

  /** The six names with the outputs of their commands. */
  function Gathered(outputs: seq<string>): (r: seq<Asset>)
    requires |outputs| == 6
    ensures |r| == 6 && forall i :: 0 <= i < 6 ==> r[i] == Asset(NAMES[i], outputs[i])
  {
    seq(6, i requires 0 <= i < 6 => Asset(NAMES[i], outputs[i]))
  }

  class AssetString {
    var assets: string

    constructor ()
      ensures assets == ""
    {
      assets := "";
    }

    method AssetsAssemble(name: string, value: string)
      modifies this
      ensures assets == old(assets) + Pair(name, value)
    {
      hide Substituted, Replaced, Stripped;
      SingleCharacter(value, KEY_VALUE_SEPARATOR, ' ');
      var v := StringReplace(value, [KEY_VALUE_SEPARATOR], " ");
      SingleCharacter(v, PAIR_SEPARATOR, ' ');
      v := StringReplace(v, [PAIR_SEPARATOR], " ");
      v := StringStrip(v);
      assets := assets + name;
      assets := assets + [KEY_VALUE_SEPARATOR];
      assets := assets + v;
      assets := assets + [PAIR_SEPARATOR];
    }

    method GetAssets(outputs: seq<string>)
      requires |outputs| == 6
      modifies this
      ensures assets == old(assets) + Assembled(Gathered(outputs))
    {
      hide Pair;
      AssetsAssemble("host", outputs[0]);
      AssetsAssemble("cpu", outputs[1]);
      AssetsAssemble("memory", outputs[2]);
      AssetsAssemble("baseboard", outputs[3]);
      AssetsAssemble("sound", outputs[4]);
      AssetsAssemble("video", outputs[5]);
      SixPairs(Gathered(outputs), old(assets));
    }
  }

  // ----- decoding -----

  ghost predicate SeparatorFree(s: string) {
    ':' !in s && ';' !in s
  }

  lemma CleanedIsSeparatorFree(value: string)
    ensures SeparatorFree(Cleaned(value))
  {
    var t := Replaced(Replaced(value, KEY_VALUE_SEPARATOR, ' '), PAIR_SEPARATOR, ' ');
    var r := Cleaned(value);
    var k: nat :| StrippedAt(t, r, k);
    assert forall i :: 0 <= i < |r| ==> r[i] == t[k + i];
  }

  /** What a reader gets by cutting at ';', dropping the empty last piece, and cutting each piece at ':'. */
  ghost function Decoded(s: string): seq<seq<string>> {
    var pieces := Pieces(s, ';');
    seq(|pieces| - 1, i requires 0 <= i < |pieces| - 1 => Pieces(pieces[i], ':'))
  }

  ghost function Fields(assets: seq<Asset>): (r: seq<string>)
    ensures |r| == |assets|
    ensures forall i :: 0 <= i < |assets| ==> r[i] == assets[i].name + [KEY_VALUE_SEPARATOR] + Cleaned(assets[i].value)
  {
    seq(|assets|, i requires 0 <= i < |assets| => assets[i].name + [KEY_VALUE_SEPARATOR] + Cleaned(assets[i].value))
  }

  lemma {:induction false} AssembledIsJoined(assets: seq<Asset>)
    ensures Assembled(assets) == Joined(Fields(assets) + [""], PAIR_SEPARATOR)
    decreases |assets|
  {
    hide Cleaned;
    if assets == [] {
      assert Fields(assets) + [""] == [""];
    } else {
      var init, last := assets[..|assets| - 1], assets[|assets| - 1];
      AssembledIsJoined(init);
      var field := last.name + [KEY_VALUE_SEPARATOR] + Cleaned(last.value);
      assert Fields(assets) == Fields(init) + [field];
      AddField(Fields(init), field);
      assert Pair(last.name, last.value) == field + [PAIR_SEPARATOR];
    }
  }

  lemma AddField(fields: seq<string>, field: string)
    ensures Joined(fields + [field] + [""], PAIR_SEPARATOR)
         == Joined(fields + [""], PAIR_SEPARATOR) + (field + [PAIR_SEPARATOR])
  {
    JoinedAppend(fields + [field], [""], PAIR_SEPARATOR);
    if fields != [] {
      JoinedAppend(fields, [field], PAIR_SEPARATOR);
      JoinedAppend(fields, [""], PAIR_SEPARATOR);
    } else {
      assert fields + [field] == [field] && fields + [""] == [""];
    }
  }

  /** Whatever the values, the asset string decodes to exactly the names and the cleaned values. */
  lemma DecodesExactly(assets: seq<Asset>)
    requires forall i :: 0 <= i < |assets| ==> SeparatorFree(assets[i].name)
    ensures |Decoded(Assembled(assets))| == |assets|
    ensures forall i :: 0 <= i < |assets| ==>
              Decoded(Assembled(assets))[i] == [assets[i].name, Cleaned(assets[i].value)]
  {
    var fields := Fields(assets) + [""];
    AssembledIsJoined(assets);
    forall i | 0 <= i < |fields| ensures PAIR_SEPARATOR !in fields[i] {
      if i < |assets| { CleanedIsSeparatorFree(assets[i].value); }
    }
    PiecesOfJoined(fields, PAIR_SEPARATOR);
    forall i | 0 <= i < |assets|
      ensures Pieces(fields[i], KEY_VALUE_SEPARATOR) == [assets[i].name, Cleaned(assets[i].value)]
    {
      CleanedIsSeparatorFree(assets[i].value);
      var parts := [assets[i].name, Cleaned(assets[i].value)];
      assert parts[1..] == [parts[1]];
      assert Joined(parts, KEY_VALUE_SEPARATOR) == fields[i];
      PiecesOfJoined(parts, KEY_VALUE_SEPARATOR);
    }
  }

  /** In particular the six command outputs come back under their six names, whatever their characters. */
  lemma GatheredDecodes(outputs: seq<string>)
    requires |outputs| == 6
    ensures Decoded(Assembled(Gathered(outputs)))
         == [["host", Cleaned(outputs[0])], ["cpu", Cleaned(outputs[1])], ["memory", Cleaned(outputs[2])],
             ["baseboard", Cleaned(outputs[3])], ["sound", Cleaned(outputs[4])], ["video", Cleaned(outputs[5])]]
  {
    hide Decoded, Assembled, Cleaned;
    DecodesExactly(Gathered(outputs));
  }
}
