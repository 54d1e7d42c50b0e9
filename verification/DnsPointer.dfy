/** Rewriting a name that ends in a compression pointer, and every other name the parser measures: where the walk
    goes behind the labels, when it leaves the 256-octet name field, and what text it leaves. */
module DnsPointers {
  import opened DnsNames
  import opened Splitting
  import opened DnsWalks

  /** A pointer: two octets, the first with both high bits set (section 4.1.4 of RFC 1035). */
  ghost predicate IsPointer(end: seq<byte>) {
    |end| == 2 && MIN_POINTER_VALUE <= end[0]
  }

  // ----- the walk behind the labels -----

  /** The field once the labels are rewritten and the pointer's first octet is zeroed. */
  ghost function Landing(ls: Labels, low: byte): (r: seq<byte>)
    requires |Encoded(ls)| + 2 < MAX_DOMAIN_NAME_LEN
    ensures |r| == MAX_DOMAIN_NAME_LEN && |Dotted(ls, DOT)| == |Encoded(ls)|
    ensures forall i :: 0 <= i < |Encoded(ls)| ==> r[i] == Dotted(ls, DOT)[i]
    ensures r[|Encoded(ls)|] == 0 && r[|Encoded(ls)| + 1] == low
    ensures forall i :: |Encoded(ls)| + 2 <= i < |r| ==> r[i] == 0
  {
    DottedLength(ls, DOT);
    Dotted(ls, DOT) + [0, low] + Zeros(MAX_DOMAIN_NAME_LEN - 2 - |Encoded(ls)|)
  }

  /** The walk follows the pointer to the place in the field that its low octet names: the high bits are gone. */
  lemma PointerIsFollowed(ls: Labels, end: seq<byte>)
    requires AreLabels(ls) && IsPointer(end) && |Encoded(ls) + end| <= MAX_LABELS_LENGTH
    ensures var n := |Encoded(ls)|;
            FieldWalk(Encoded(ls) + end) == WalkFrom(Replace, Landing(ls, end[1]), n + 2, end[1], n, DOT)
  {
    hide TurnAt;
    var n, wire := |Encoded(ls)|, Encoded(ls) + end;
    var field := Field(wire);
    assert At(field, 0, Encoded(ls));
    RewriteLabels(field, n + 2, 0, ls, DOT);
    PointerTurn(Overlay(field, 0, Dotted(ls, DOT)), ls, end);
  }

  lemma PointerTurn(mem: seq<byte>, ls: Labels, end: seq<byte>)
    requires IsPointer(end) && |Encoded(ls) + end| <= MAX_LABELS_LENGTH && |Dotted(ls, DOT)| == |Encoded(ls)|
    requires mem == Overlay(Field(Encoded(ls) + end), 0, Dotted(ls, DOT))
    ensures var n := |Encoded(ls)|;
            TurnAt(Replace, mem, n + 2, n, n, DOT) == Go(Landing(ls, end[1]), DOT, end[1], n)
  {
    LandingIsMemory(mem, ls, end);
    hide Landing, Field, Overlay, Dotted, Encoded;
  }

  lemma LandingIsMemory(mem: seq<byte>, ls: Labels, end: seq<byte>)
    requires |end| == 2 && |Encoded(ls) + end| <= MAX_LABELS_LENGTH && |Dotted(ls, DOT)| == |Encoded(ls)|
    requires mem == Overlay(Field(Encoded(ls) + end), 0, Dotted(ls, DOT))
    ensures var n := |Encoded(ls)|;
      |mem| == MAX_DOMAIN_NAME_LEN && mem[n] == end[0] && mem[n + 1] == end[1] && mem[n := 0] == Landing(ls, end[1])
  {
    hide Dotted, Encoded;
    var e, d, zeros := Encoded(ls), Dotted(ls, DOT), Zeros(MAX_DOMAIN_NAME_LEN - 2 - |Encoded(ls)|);
    Reassociate(e, end, zeros);
    assert (e + (end + zeros))[|e|..] == end + zeros;
    assert mem == d + (end + zeros);
    assert (end + zeros)[0 := 0] == [0, end[1]] + zeros;
    assert mem[|d| := 0] == d + ([0, end[1]] + zeros);
    Reassociate(d, [0, end[1]], zeros);
  }

  /** Behind the labels at most one label of one octet still fits, so in a name shorter than 255 octets the walk
      stops inside the field. */
  lemma {:induction false} ShortTail(mem: seq<byte>, n: word, o: byte, total: nat)
    requires |mem| == MAX_DOMAIN_NAME_LEN && mem[254] == mem[255] == 0
    requires n <= 254 && (total == n - 2 || total == n)
    ensures !WalkFrom(Replace, mem, n, o, total, DOT).Fault?
    decreases MAX_LABELS_LENGTH - total, PointerOctets(mem)
  {
    var turn := TurnAt(Replace, mem, n, o, total, DOT);
    if turn.Go? {
      TurnProgress(Replace, mem, n, o, total, DOT);
      ShortTail(turn.mem, n, turn.offset, turn.total);
    }
  }

  /** The field and the place when every pointer octet from o on has been followed by its low octet and zeroed. */
  datatype Chase = Chase(mem: seq<byte>, at: nat)

  ghost function Chased(mem: seq<byte>, o: nat): (r: Chase)
    requires |mem| == MAX_DOMAIN_NAME_LEN && mem[255] == 0 && o <= 255
    ensures |r.mem| == MAX_DOMAIN_NAME_LEN && r.at <= 255 && r.mem[255] == 0
    ensures r.mem[r.at] < MIN_POINTER_VALUE
    decreases PointerOctets(mem)
  {
    if MIN_POINTER_VALUE <= mem[o] then
      ZeroingPointer(mem, o);
      Chased(mem[o := 0], mem[o + 1])
    else Chase(mem, o)
  }

  /** A length octet becomes a dot; anything else is left. */
  ghost function Marked(mem: seq<byte>, at: nat): seq<byte>
    requires at < |mem|
  {
    if 1 <= mem[at] <= MAX_LABEL_LENGTH then mem[at := DOT] else mem
  }

  lemma {:induction false} ChaseWalk(mem: seq<byte>, n: word, o: nat, total: nat)
    requires |mem| == MAX_DOMAIN_NAME_LEN && mem[255] == 0 && o <= 255 && total <= MAX_LABELS_LENGTH
    ensures var c := Chased(mem, o);
            WalkFrom(Replace, mem, n, o, total, DOT) == WalkFrom(Replace, c.mem, n, c.at, total, DOT)
    decreases PointerOctets(mem)
  {
    hide WalkFrom;
    if MIN_POINTER_VALUE <= mem[o] {
      ZeroingPointer(mem, o);
      WalkTurn(Replace, mem, n, o, total, DOT);
      ChaseWalk(mem[o := 0], n, mem[o + 1], total);
    }
  }

  /** From o, pointer octets lead by their low octets to the last octet of a 255-octet name, and that is a one. */
  ghost predicate LeadsOut(mem: seq<byte>, o: byte)
    requires |mem| == MAX_DOMAIN_NAME_LEN && mem[255] == 0
  {
    Chased(mem, o).at == 254 && Chased(mem, o).mem[254] == 1
  }

  lemma LongTail(mem: seq<byte>, o: byte)
    requires |mem| == MAX_DOMAIN_NAME_LEN && mem[255] == 0
    ensures WalkFrom(Replace, mem, 255, o, 253, DOT).Fault? <==> LeadsOut(mem, o)
  {
    hide WalkFrom, Chased;
    var c := Chased(mem, o);
    ChaseWalk(mem, 255, o, 253);
    WalkTurn(Replace, c.mem, 255, c.at, 253, DOT);
    var turn := TurnAt(Replace, c.mem, 255, c.at, 253, DOT);
    if turn.Go? {
      LastTurn(turn.mem, turn.offset);
    }
  }

  /** All 255 octets spent, nothing but a pointer takes the walk on. */
  lemma {:induction false} LastTurn(mem: seq<byte>, o: word)
    requires |mem| == MAX_DOMAIN_NAME_LEN && mem[255] == 0
    ensures WalkFrom(Replace, mem, 255, o, 255, DOT).Fault? <==> o > 255
    decreases PointerOctets(mem)
  {
    if o <= 255 && MIN_POINTER_VALUE <= mem[o] {
      ZeroingPointer(mem, o);
      assert TurnAt(Replace, mem, 255, o, 255, DOT) == Go(mem[o := 0], DOT, mem[o + 1], 255);
      LastTurn(mem[o := 0], mem[o + 1]);
    }
  }

  // ----- every name the parser measures -----

  /** wire is labels, ended by a root octet or a pointer, or broken off. */
  ghost predicate NameShape(wire: seq<byte>, ls: Labels, end: seq<byte>) {
    && AreLabels(ls) && (end == [] || IsTerminator(end))
    && wire == Encoded(ls) + end && 1 <= |wire| <= MAX_LABELS_LENGTH
  }

  /** What calculate_name_length can cut out of a message: a name of some shape, or - its 8-bit sum having run
      over behind 255 octets of labels and a pointer - the first octet alone. */
  ghost predicate IsMeasured(wire: seq<byte>) {
    || (exists ls, end :: NameShape(wire, ls, end))
    || (|wire| == 1 && wire[0] <= MAX_LABEL_LENGTH)
  }

  /** The measuring walk from offset, total octets behind it, passes labels ls and stops at end, having counted
      their size modulo 256. */
  ghost predicate Passes(mem: seq<byte>, packetLength: word, offset: word, total: nat, ls: Labels, end: seq<byte>)
    requires total <= MAX_LABELS_LENGTH
  {
    var w := WalkFrom(Accumulate, mem, packetLength, offset, total, total);
    && offset < |mem| && AreLabels(ls) && (end == [] || IsTerminator(end))
    && total + |Encoded(ls)| <= MAX_LABELS_LENGTH
    && (!IsPointer(end) ==> total + |Encoded(ls) + end| <= MAX_LABELS_LENGTH)
    && w.Done? && w.param == Cut(total + |Encoded(ls) + end|)
    && (offset + |Encoded(ls) + end| <= |mem| ==> At(mem, offset, Encoded(ls) + end))
    && (ls == [] && end == [] ==> MAX_LABEL_LENGTH < mem[offset] < MIN_POINTER_VALUE || total > 0)
    && (IsPointer(end) ==>
          At(mem, offset, Encoded(ls) + end[..1]) && (ls != [] ==> total + |Encoded(ls)| <= packetLength))
  }

  /** Whatever the memory holds, the measuring walk has passed some labels and stopped at some end. */
  lemma {:induction false} Passed(mem: seq<byte>, packetLength: word, offset: word, total: nat)
    returns (ls: Labels, end: seq<byte>)
    requires total <= MAX_LABELS_LENGTH && offset <= MAX_LABELS_LENGTH + total
    requires WalkFrom(Accumulate, mem, packetLength, offset, total, total).Done?
    ensures Passes(mem, packetLength, offset, total, ls, end)
    decreases MAX_LABELS_LENGTH - total
  {
    hide WalkFrom, Passes, Encoded, LabelAt;
    InMemory(mem, packetLength, offset, total);
    var octet := mem[offset];
    var expected := total + 1 + octet;
    if octet == 0 || MAX_LABEL_LENGTH < octet || MAX_LABELS_LENGTH < expected {
      ls := [];
      end := PassedEnd(mem, packetLength, offset, total);
    } else {
      LabelTurn(mem, packetLength, offset, total);
      var l := LabelAt(mem, offset);
      if expected <= packetLength {
        var rest: Labels;
        rest, end := Passed(mem, packetLength, offset + 1 + octet, expected);
        PassedLabel(mem, packetLength, offset, total, l, rest, end);
        ls := [l] + rest;
      } else {
        ls, end := [l], [];
        LastLabel(mem, packetLength, offset, total, l);
      }
    }
  }

  lemma InMemory(mem: seq<byte>, packetLength: word, offset: word, total: nat)
    requires total <= MAX_LABELS_LENGTH
    requires WalkFrom(Accumulate, mem, packetLength, offset, total, total).Done?
    ensures offset < |mem|
  {
  }

  /** The label behind a length octet, as far as it is in the memory. */
  ghost function LabelAt(mem: seq<byte>, offset: nat): (l: seq<byte>)
    requires offset < |mem| && 0 < mem[offset] <= MAX_LABEL_LENGTH
    ensures IsLabel(l) && |l| == mem[offset]
    ensures offset + 1 + |l| <= |mem| ==> mem[offset + 1..offset + 1 + |l|] == l
  {
    if offset + 1 + mem[offset] <= |mem| then mem[offset + 1..offset + 1 + mem[offset]] else Zeros(mem[offset])
  }

  lemma PassedEnd(mem: seq<byte>, packetLength: word, offset: word, total: nat) returns (end: seq<byte>)
    requires total <= MAX_LABELS_LENGTH
    requires WalkFrom(Accumulate, mem, packetLength, offset, total, total).Done?
    requires mem[offset] == 0 || MAX_LABEL_LENGTH < mem[offset] || MAX_LABELS_LENGTH < total + 1 + mem[offset]
    ensures Passes(mem, packetLength, offset, total, [], end)
  {
    var octet := mem[offset];
    end := if MIN_POINTER_VALUE <= octet then [octet, if offset + 1 < |mem| then mem[offset + 1] else 0]
           else if octet == 0 && total < MAX_LABELS_LENGTH then [0] else [];
    assert Encoded([]) + end == end;
  }

  lemma LastLabel(mem: seq<byte>, packetLength: word, offset: word, total: nat, l: seq<byte>)
    requires offset < |mem| && IsLabel(l) && mem[offset] == |l|
    requires offset + 1 + |l| <= |mem| ==> mem[offset + 1..offset + 1 + |l|] == l
    requires total + 1 + |l| <= MAX_LABELS_LENGTH
    requires WalkFrom(Accumulate, mem, packetLength, offset, total, total) == Done(false, mem, total + 1 + |l|)
    ensures Passes(mem, packetLength, offset, total, [l], [])
  {
    hide WalkFrom;
    assert [l][1..] == [];
    assert Encoded([l]) + [] == [LengthOctet(l)] + l;
  }

  lemma PassedLabel(mem: seq<byte>, packetLength: word, offset: word, total: nat,
                    l: seq<byte>, rest: Labels, end: seq<byte>)
    requires offset < |mem| && IsLabel(l) && mem[offset] == |l|
    requires offset + 1 + |l| <= |mem| ==> mem[offset + 1..offset + 1 + |l|] == l
    requires total + 1 + |l| <= MAX_LABELS_LENGTH && total + 1 + |l| <= packetLength && offset + 1 + |l| < 0x1_0000
    requires WalkFrom(Accumulate, mem, packetLength, offset, total, total)
          == WalkFrom(Accumulate, mem, packetLength, offset + 1 + |l|, total + 1 + |l|, total + 1 + |l|)
    requires Passes(mem, packetLength, offset + 1 + |l|, total + 1 + |l|, rest, end)
    ensures Passes(mem, packetLength, offset, total, [l] + rest, end)
  {
    hide WalkFrom;
    assert ([l] + rest)[1..] == rest;
    var first := [LengthOctet(l)] + l;
    Reassociate(first, Encoded(rest), end);
    assert offset + 1 + |l| < |mem| && mem[offset..offset + 1 + |l|] == first;
    if offset + |Encoded([l] + rest) + end| <= |mem| {
      AtSplit(mem, offset, first, Encoded(rest) + end);
    }
    if IsPointer(end) {
      Reassociate(first, Encoded(rest), end[..1]);
      AtSplit(mem, offset, first, Encoded(rest) + end[..1]);
    }
  }

  lemma LabelTurn(mem: seq<byte>, packetLength: word, offset: word, total: nat)
    requires total <= MAX_LABELS_LENGTH && offset <= MAX_LABELS_LENGTH + total && offset < |mem|
    requires 0 < mem[offset] <= MAX_LABEL_LENGTH && total + 1 + mem[offset] <= MAX_LABELS_LENGTH
    ensures var expected := total + 1 + mem[offset];
            WalkFrom(Accumulate, mem, packetLength, offset, total, total)
            == if expected <= packetLength
               then WalkFrom(Accumulate, mem, packetLength, offset + 1 + mem[offset], expected, expected)
               else Done(false, mem, expected)
  {
  }

  /** What calculate_name_length measures inside the memory is a name of some shape, or a single length octet. */
  lemma MeasuredHasShape(mem: seq<byte>, packetLength: word, offset: byte)
    requires Measured(mem, packetLength, offset).Done?
    ensures var n := Measured(mem, packetLength, offset).param;
            1 <= n && offset + n <= |mem| ==> IsMeasured(mem[offset..offset + n])
  {
    var n := Measured(mem, packetLength, offset).param;
    var ls, end := Passed(mem, packetLength, offset, 0);
    hide WalkFrom;
    if 1 <= n && offset + n <= |mem| {
      var wire := mem[offset..offset + n];
      if n == |Encoded(ls) + end| {
        assert At(mem, offset, Encoded(ls) + end);
        assert wire == Encoded(ls) + end;
        assert NameShape(wire, ls, end);
      } else {
        assert n == 1 && |Encoded(ls)| == 255;
        FirstOctet(mem, packetLength, offset);
      }
    }
  }

  lemma FirstOctet(mem: seq<byte>, packetLength: word, offset: byte)
    requires Measured(mem, packetLength, offset).Done?
    ensures offset < |mem|
    ensures MAX_LABEL_LENGTH < mem[offset] < MIN_POINTER_VALUE ==> Measured(mem, packetLength, offset).param == 0
    ensures MIN_POINTER_VALUE <= mem[offset] ==> Measured(mem, packetLength, offset).param == 2
  {
  }

  /** Labels of 254 octets in all and a pointer behind them: one octet more than any name may have. */
  ghost predicate RunsOver(mem: seq<byte>, packetLength: word, offset: nat) {
    exists ls, hi {:trigger Encoded(ls) + [hi]} ::
      && AreLabels(ls) && |Encoded(ls)| == 254 <= packetLength
      && MIN_POINTER_VALUE <= hi && At(mem, offset, Encoded(ls) + [hi])
  }

  /** A name is measured as zero octets exactly when it starts with an octet that is neither length nor pointer,
      or when 254 octets of labels and a pointer bring the 8-bit sum back to zero. */
  lemma MeasuredAsNothing(mem: seq<byte>, packetLength: word, offset: byte)
    ensures Measured(mem, packetLength, offset).Done? && Measured(mem, packetLength, offset).param == 0
       <==> && offset < |mem|
            && (MAX_LABEL_LENGTH < mem[offset] < MIN_POINTER_VALUE || RunsOver(mem, packetLength, offset))
  {
    var m := Measured(mem, packetLength, offset);
    if m.Done? && m.param == 0 {
      var ls, end := Passed(mem, packetLength, offset, 0);
      hide WalkFrom;
      if ls != [] || end != [] {
        assert IsPointer(end) && end[..1] == [end[0]];
        assert At(mem, offset, Encoded(ls) + [end[0]]);
      }
    }
    if RunsOver(mem, packetLength, offset) {
      var ls, hi :| AreLabels(ls) && |Encoded(ls)| == 254 <= packetLength
        && MIN_POINTER_VALUE <= hi && At(mem, offset, Encoded(ls) + [hi]);
      AtSplit(mem, offset, Encoded(ls), [hi]);
      assert mem[offset + 254] == [hi][0];
      MeasureLabels(mem, packetLength, offset, 0, ls);
    }
  }

  // ----- when the rewriting leaves the field -----

  /** A name of 255 octets that ends in a pointer whose low octet is one, and from whose octet at one the pointer
      octets of the field lead to that last octet. */
  ghost predicate Strays(ls: Labels, end: seq<byte>) {
    IsPointer(end) && |Encoded(ls) + end| == MAX_LABELS_LENGTH && LeadsOut(Landing(ls, end[1]), end[1])
  }

  /** Rewriting a measured name stays inside the 256-octet field, unless the name strays. */
  lemma FieldFaults(wire: seq<byte>, ls: Labels, end: seq<byte>)
    requires NameShape(wire, ls, end)
    ensures FieldWalk(wire).Fault? <==> Strays(ls, end)
  {
    var n := |Encoded(ls)|;
    if IsPointer(end) {
      PointerIsFollowed(ls, end);
      if |wire| <= 254 {
        ShortTail(Landing(ls, end[1]), |wire|, end[1], n);
      } else {
        LongTail(Landing(ls, end[1]), end[1]);
      }
    } else if end == [0] {
      TextOfName(ls);
    } else {
      BrokenOff(ls);
      assert wire == Encoded(ls);
    }
  }

  lemma BrokenOff(ls: Labels)
    requires AreLabels(ls) && 1 <= |Encoded(ls)| <= MAX_LABELS_LENGTH
    ensures !FieldWalk(Encoded(ls)).Fault?
  {
    var n := |Encoded(ls)|;
    var field := Field(Encoded(ls));
    assert At(field, 0, Encoded(ls));
    RewriteLabels(field, n, 0, ls, DOT);
    var mem := Overlay(field, 0, Dotted(ls, DOT));
    assert mem[n] == field[n] == 0;
    assert TurnAt(Replace, mem, n, n, n, DOT) == Stop(false, mem, DOT);
  }

  /** Only a last octet of one, and a first label that starts with a pointer octet, can make a name stray. */
  lemma StrayNames(ls: Labels, end: seq<byte>)
    requires AreLabels(ls) && Strays(ls, end)
    ensures end[1] == 1 && ls != [] && MIN_POINTER_VALUE <= ls[0][0]
  {
    var mem := Landing(ls, end[1]);
    ChaseZeroes(mem, end[1], 254);
    assert mem[254] == end[1];
    assert IsLabel(ls[0]);
    assert Dotted(ls, DOT)[1] == ls[0][0];
  }

  /** Chasing pointers only zeroes octets. */
  lemma {:induction false} ChaseZeroes(mem: seq<byte>, o: nat, i: nat)
    requires |mem| == MAX_DOMAIN_NAME_LEN && mem[255] == 0 && o <= 255 && i <= 255
    ensures Chased(mem, o).mem[i] == mem[i] || Chased(mem, o).mem[i] == 0
    decreases PointerOctets(mem)
  {
    if MIN_POINTER_VALUE <= mem[o] {
      ZeroingPointer(mem, o);
      ChaseZeroes(mem[o := 0], mem[o + 1], i);
    }
  }

  /** Rewriting anything that the parser measures: it leaves the field only if the name strays. */
  ghost predicate StraysFromField(wire: seq<byte>) {
    exists ls, end :: NameShape(wire, ls, end) && Strays(ls, end)
  }

  lemma MeasuredFaults(wire: seq<byte>)
    requires IsMeasured(wire)
    ensures 1 <= |wire| <= MAX_LABELS_LENGTH && (FieldWalk(wire).Fault? <==> StraysFromField(wire))
  {
    if ls, end :| NameShape(wire, ls, end) {
      FieldFaults(wire, ls, end);
      forall ms, end' | NameShape(wire, ms, end') && Strays(ms, end') ensures FieldWalk(wire).Fault? {
        FieldFaults(wire, ms, end');
      }
    } else {
      var field := Field(wire);
      assert TurnAt(Replace, field, 1, 0, 0, DOT).Stop?;
    }
  }

  /** A name that strays: labels of 63, 63, 63 and 60 octets, the first starting with 0xC0 and 254. */
  ghost function StrayLabels(): Labels {
    [[0xC0, 254] + Zeros(61), Zeros(63), Zeros(63), Zeros(60)]
  }

  lemma StrayNamesExist()
    ensures NameShape(Encoded(StrayLabels()) + [0xC0, 1], StrayLabels(), [0xC0, 1])
    ensures Strays(StrayLabels(), [0xC0, 1])
  {
    var ls := StrayLabels();
    var last: Labels := [Zeros(60)];
    var third: Labels := [Zeros(63)] + last;
    var second: Labels := [Zeros(63)] + third;
    assert last[1..] == [] && third[1..] == last && second[1..] == third && ls[1..] == second;
    assert |Encoded(last)| == 61 && |Encoded(third)| == 125;
    assert |Encoded(ls)| == 253;
    var mem := Landing(ls, 1);
    assert Dotted(ls, DOT)[1] == 0xC0 && Dotted(ls, DOT)[2] == 254;
    var mem' := mem[1 := 0];
    assert mem'[254] == 1;
    assert LeadsOut(mem', 254);
  }

  // ----- rewriting whatever a record brings -----

  /** With no octet behind the first n, and n at most 192, no label that still fits reaches over index 255. */
  lemma {:induction false} SmallTail(mem: seq<byte>, n: word, o: word, total: nat)
    requires |mem| == MAX_DOMAIN_NAME_LEN && n <= 192 && total <= n && o <= 255
    requires forall i :: n <= i < |mem| ==> mem[i] == 0
    ensures !WalkFrom(Replace, mem, n, o, total, DOT).Fault?
    decreases MAX_LABELS_LENGTH - total, PointerOctets(mem)
  {
    hide WalkFrom;
    WalkTurn(Replace, mem, n, o, total, DOT);
    var turn := TurnAt(Replace, mem, n, o, total, DOT);
    if turn.Go? {
      SmallTail(turn.mem, n, turn.offset, turn.total);
    }
  }

  /** Three octets that lead out of the field: a pointer to the label octet at 192, and that label. */
  ghost function LeadingOut(n: nat): (r: seq<byte>)
    requires n >= 193
    ensures |r| == n
  {
    seq(n, i => if i == 0 then 0xC0 else if i == 1 then 192 else if i == 192 then 63 else 0)
  }

  lemma LeadingOutFaults(n: nat)
    requires 193 <= n <= MAX_LABELS_LENGTH
    ensures FieldWalk(LeadingOut(n)).Fault?
  {
    var field := Field(LeadingOut(n));
    assert field[0] == 0xC0 && field[1] == 192 && field[192] == 63;
    var zeroed := field[0 := 0];
    assert TurnAt(Replace, field, n, 0, 0, DOT) == Go(zeroed, DOT, 192, 0);
    assert TurnAt(Replace, zeroed, n, 192, 0, DOT) == Go(zeroed[192 := DOT], DOT, 256, 64);
    assert TurnAt(Replace, zeroed[192 := DOT], n, 256, 64, DOT) == OutOfMemory;
    hide TurnAt, WalkFrom;
    WalkTurn(Replace, zeroed[192 := DOT], n, 256, 64, DOT);
    WalkTurn(Replace, zeroed, n, 192, 0, DOT);
    WalkTurn(Replace, field, n, 0, 0, DOT);
  }

  /** Whatever octets are copied into a name field: their rewriting is sure to stay inside it if and only if there
      are at most 192 of them. */
  lemma AnyOctetsStay(n: nat)
    requires n <= MAX_LABELS_LENGTH
    ensures (forall wire: seq<byte> :: |wire| == n ==> !FieldWalk(wire).Fault?) <==> n <= 192
  {
    hide WalkFrom;
    if n <= 192 {
      forall wire: seq<byte> | |wire| == n ensures !FieldWalk(wire).Fault? {
        SmallTail(Field(wire), n, 0, 0);
      }
    } else {
      LeadingOutFaults(n);
    }
  }

  /** Without a pointer octet the walk goes over the labels once, and so it stays inside the field. */
  ghost predicate PointerFree(wire: seq<byte>) {
    forall i :: 0 <= i < |wire| ==> wire[i] < MIN_POINTER_VALUE
  }

  lemma {:induction false} StraightWalk(mem: seq<byte>, n: word, o: word)
    requires |mem| == MAX_DOMAIN_NAME_LEN && o <= n <= MAX_LABELS_LENGTH && PointerFree(mem)
    ensures !WalkFrom(Replace, mem, n, o, o, DOT).Fault?
    decreases n - o
  {
    hide WalkFrom;
    WalkTurn(Replace, mem, n, o, o, DOT);
    var turn := TurnAt(Replace, mem, n, o, o, DOT);
    if turn.Go? {
      StraightWalk(turn.mem, n, turn.offset);
    }
  }

  /** What makes the rewriting of any octets safe, in terms of the octets: few of them, none of them a pointer
      octet, or a name that does not stray. */
  ghost predicate SafeOctets(wire: seq<byte>) {
    |wire| <= 192 || PointerFree(wire) || exists ls, end :: NameShape(wire, ls, end) && !Strays(ls, end)
  }

  lemma SafeOctetsStay(wire: seq<byte>)
    requires |wire| <= MAX_LABELS_LENGTH && SafeOctets(wire)
    ensures !FieldWalk(wire).Fault?
  {
    hide WalkFrom, Strays;
    if |wire| <= 192 {
      SmallTail(Field(wire), |wire|, 0, 0);
    } else if PointerFree(wire) {
      StraightWalk(Field(wire), |wire|, 0);
    } else {
      var ls, end :| NameShape(wire, ls, end) && !Strays(ls, end);
      FieldFaults(wire, ls, end);
    }
  }

  // ----- the text of a compressed name -----

  /** The place in the field where the low octet points holds something that the callback leaves as it is. */
  ghost predicate LandsHarmlessly(ls: Labels, low: byte) {
    low < |Dotted(ls, DOT)| ==>
      var octet := Dotted(ls, DOT)[low];
      octet == 0 || octet == DOT || MAX_LABEL_LENGTH < octet < MIN_POINTER_VALUE
  }

  /** The C string in a field that holds a dot, then text, then a NUL. */
  lemma TextInField(mem: seq<byte>, n: nat, text: seq<byte>)
    requires |text| + 2 <= n <= |mem| == MAX_DOMAIN_NAME_LEN
    requires mem[1..|text| + 1] == text && mem[|text| + 1] == 0
    ensures CString(Shifted(mem, n)) == CString(text)
  {
    var s := Shifted(mem, n);
    var rest := s[|text|..];
    assert s == text + rest;
    assert rest[0] == 0;
    CStringOfPrefix(text, rest);
  }

  /** The walk behind a pointer that lands harmlessly leaves the labels' part of the field alone. */
  lemma HarmlessWalk(ls: Labels, low: byte)
    requires AreLabels(ls) && ls != [] && |Encoded(ls)| + 2 <= MAX_LABELS_LENGTH && LandsHarmlessly(ls, low)
    ensures var n := |Encoded(ls)|;
            var w := WalkFrom(Replace, Landing(ls, low), n + 2, low, n, DOT);
            w.Done? && |w.mem| == MAX_DOMAIN_NAME_LEN && w.mem[..n + 1] == Landing(ls, low)[..n + 1]
  {
    hide TurnAt, Landing, Dotted, Encoded, WalkFrom;
    var n, mem := |Encoded(ls)|, Landing(ls, low);
    HarmlessTurn(ls, low);
    WalkTurn(Replace, mem, n + 2, low, n, DOT);
    if TurnAt(Replace, mem, n + 2, low, n, DOT).Go? {
      WalkTurn(Replace, mem[low := 0], n + 2, 0, n, DOT);
    }
  }

  /** The walk stops there; or it has landed on the low octet itself, taken that for a pointer, and stops at the
      leading dot. */
  lemma HarmlessTurn(ls: Labels, low: byte)
    requires AreLabels(ls) && ls != [] && |Encoded(ls)| + 2 <= MAX_LABELS_LENGTH && LandsHarmlessly(ls, low)
    ensures var n, mem := |Encoded(ls)|, Landing(ls, low);
            var turn := TurnAt(Replace, mem, n + 2, low, n, DOT);
            || (turn.Stop? && |turn.mem| == MAX_DOMAIN_NAME_LEN && turn.mem[..n + 1] == mem[..n + 1])
            || (low == n + 1 && turn == Go(mem[low := 0], DOT, 0, n)
                && TurnAt(Replace, mem[low := 0], n + 2, 0, n, DOT) == Stop(false, mem[low := 0], DOT))
  {
    var n, mem := |Encoded(ls)|, Landing(ls, low);
    assert IsLabel(ls[0]);
    assert n >= 2 && mem[0] == DOT;
    assert mem[low := 0][0 := DOT] == mem[low := 0] || low == 0;
    hide Landing, Dotted, Encoded;
  }

  lemma LabelsInField(ls: Labels, low: byte)
    requires AreLabels(ls) && ls != [] && |Encoded(ls)| + 2 <= MAX_LABELS_LENGTH
    ensures var n, mem, j := |Encoded(ls)|, Landing(ls, low), Joined(ls, DOT);
            n == |j| + 1 && mem[0] == DOT && mem[1..n] == j && mem[n] == 0
    ensures |Dotted(ls, DOT)| == |Encoded(ls)| && Dotted(ls, DOT) == [DOT] + Joined(ls, DOT)
  {
    DottedIsJoined(ls, DOT);
    DottedLength(ls, DOT);
  }

  /** A compressed name keeps the text of its own labels if its pointer lands harmlessly. */
  lemma TextIsKept(ls: Labels, end: seq<byte>)
    requires AreLabels(ls) && ls != [] && IsPointer(end) && |Encoded(ls) + end| <= MAX_LABELS_LENGTH
    requires LandsHarmlessly(ls, end[1])
    ensures !FieldWalk(Encoded(ls) + end).Fault? && FieldText(Encoded(ls) + end) == NameText(ls)
  {
    hide WalkFrom, Landing, FieldWalk, LandsHarmlessly, Encoded;
    var n := |Encoded(ls)|;
    PointerIsFollowed(ls, end);
    HarmlessWalk(ls, end[1]);
    LabelsInField(ls, end[1]);
    var w := FieldWalk(Encoded(ls) + end);
    WalkIsFieldWalk(Encoded(ls) + end);
    SamePrefix(w.mem, Landing(ls, end[1]), n);
    TextInField(w.mem, n + 2, Joined(ls, DOT));
  }

  lemma SamePrefix(s: seq<byte>, t: seq<byte>, n: nat)
    requires 1 <= n < |s| && n < |t| && s[..n + 1] == t[..n + 1]
    ensures s[1..n] == t[1..n] && s[n] == t[n]
  {
    forall i | 0 <= i <= n ensures s[i] == t[i] {
      assert s[i] == s[..n + 1][i] && t[i] == t[..n + 1][i];
    }
  }

  lemma WalkIsFieldWalk(wire: seq<byte>)
    requires 1 <= |wire| < MAX_DOMAIN_NAME_LEN && !FieldWalk(wire).Fault?
    requires |FieldWalk(wire).mem| == MAX_DOMAIN_NAME_LEN
    ensures FieldText(wire) == CString(Shifted(FieldWalk(wire).mem, |wire|))
  {
  }

  /** The rewriting never touches an octet again that it has zeroed or made the replacement octet. */
  lemma {:induction false} Settled(mem: seq<byte>, n: word, o: word, total: nat, i: nat)
    requires total <= MAX_LABELS_LENGTH && i < |mem| && (mem[i] == 0 || mem[i] == DOT)
    ensures var w := WalkFrom(Replace, mem, n, o, total, DOT);
            w.Done? ==> |w.mem| == |mem| && w.mem[i] == mem[i]
    decreases MAX_LABELS_LENGTH - total, PointerOctets(mem)
  {
    var turn := TurnAt(Replace, mem, n, o, total, DOT);
    if turn.Go? {
      TurnProgress(Replace, mem, n, o, total, DOT);
      Settled(turn.mem, n, turn.offset, turn.total, i);
    }
  }

  /** An octet on which the pointer lands harmfully is a dot or a NUL in the end. */
  lemma HarmedOctet(ls: Labels, low: byte)
    requires AreLabels(ls) && ls != [] && |Encoded(ls)| + 2 <= MAX_LABELS_LENGTH && !LandsHarmlessly(ls, low)
    ensures var n := |Encoded(ls)|;
            var w := WalkFrom(Replace, Landing(ls, low), n + 2, low, n, DOT);
            w.Done? ==> |w.mem| == MAX_DOMAIN_NAME_LEN && (w.mem[low] == 0 || w.mem[low] == DOT)
  {
    hide WalkFrom;
    var n, mem := |Encoded(ls)|, Landing(ls, low);
    DottedLength(ls, DOT);
    assert low < n && mem[low] == Dotted(ls, DOT)[low];
    hide Landing, Dotted, Encoded;
    WalkTurn(Replace, mem, n + 2, low, n, DOT);
    var turn := TurnAt(Replace, mem, n + 2, low, n, DOT);
    if turn.Go? {
      Settled(turn.mem, n + 2, turn.offset, turn.total, low);
    }
  }

  /** Where the pointer lands on an octet of 2 to 63 the walk replaces this octet by a dot and stops. */
  lemma DottedOctet(ls: Labels, low: byte)
    requires AreLabels(ls) && ls != [] && |Encoded(ls)| + 2 <= MAX_LABELS_LENGTH
    requires low < |Dotted(ls, DOT)| && 2 <= Dotted(ls, DOT)[low] <= MAX_LABEL_LENGTH
    ensures var n := |Encoded(ls)|;
            && low < n
            && WalkFrom(Replace, Landing(ls, low), n + 2, low, n, DOT)
               == Done(false, Landing(ls, low)[low := DOT], DOT)
  {
    var n, mem := |Encoded(ls)|, Landing(ls, low);
    DottedLength(ls, DOT);
    assert TurnAt(Replace, mem, n + 2, low, n, DOT) == Stop(false, mem[low := DOT], DOT);
  }

  /** The field that the rewriting leaves: pointers are chased to the first octet that is none, and that is marked;
      if it is a one, there is room for one label of one octet, and pointers are chased once more from behind it. */
  ghost function Settlement(ls: Labels, low: byte): (r: seq<byte>)
    requires |Encoded(ls)| + 2 < MAX_DOMAIN_NAME_LEN
    ensures |r| == MAX_DOMAIN_NAME_LEN
  {
    var first := Chased(Landing(ls, low), low);
    var marked := Marked(first.mem, first.at);
    if first.mem[first.at] == 1 && first.at < 254 then
      var second := Chased(marked, first.at + 2);
      Marked(second.mem, second.at)
    else marked
  }

  /** The walk behind the labels comes to this settlement. */
  lemma SettlementIsReached(ls: Labels, end: seq<byte>)
    requires AreLabels(ls) && IsPointer(end) && |Encoded(ls) + end| <= MAX_LABELS_LENGTH && !Strays(ls, end)
    ensures FieldWalk(Encoded(ls) + end).Done? && FieldWalk(Encoded(ls) + end).mem == Settlement(ls, end[1])
  {
    hide WalkFrom, Chased, Landing, Encoded, LandsHarmlessly;
    var n, low := |Encoded(ls)| + 2, end[1];
    var first := Chased(Landing(ls, low), low);
    PointerIsFollowed(ls, end);
    ChaseWalk(Landing(ls, low), n, low, n - 2);
    WalkTurn(Replace, first.mem, n, first.at, n - 2, DOT);
    if first.mem[first.at] == 1 {
      ChaseZeroes(Landing(ls, low), low, 254);
      assert first.at < 254;
      var marked := Marked(first.mem, first.at);
      var second := Chased(marked, first.at + 2);
      ChaseWalk(marked, n, first.at + 2, n);
      WalkTurn(Replace, second.mem, n, second.at, n, DOT);
    }
  }

  /** The text of any compressed name: its labels with dots for their lengths, as the settlement has left them. */
  lemma CompressedText(ls: Labels, end: seq<byte>)
    requires AreLabels(ls) && ls != [] && IsPointer(end) && |Encoded(ls) + end| <= MAX_LABELS_LENGTH && !Strays(ls, end)
    ensures !FieldWalk(Encoded(ls) + end).Fault? && |Encoded(ls)| >= 1
    ensures FieldText(Encoded(ls) + end) == CString(Settlement(ls, end[1])[1..|Encoded(ls)|])
  {
    hide WalkFrom, Settlement;
    var n, low, wire := |Encoded(ls)|, end[1], Encoded(ls) + end;
    assert IsLabel(ls[0]);
    SettlementIsReached(ls, end);
    PointerIsFollowed(ls, end);
    Settled(Landing(ls, low), n + 2, low, n, n);
    hide FieldWalk, Landing, Encoded;
    var mem := Settlement(ls, low);
    WalkIsFieldWalk(wire);
    TextInField(mem, n + 2, mem[1..n]);
  }

  /** The text of a compressed name with NUL-free labels.  Compression is not resolved: nothing is ever added to
      the labels in front of the pointer.  They are kept as they are if and only if the pointer's low octet, taken
      as a place in the field, lands behind them, on a dot, or on an octet that is neither length nor pointer; on an
      octet of 2 to 63 it makes that octet a dot. */
  lemma TextOfCompressedName(ls: Labels, end: seq<byte>)
    requires AreLabels(ls) && ls != [] && Free(ls, 0)
    requires IsPointer(end) && |Encoded(ls) + end| <= MAX_LABELS_LENGTH && !Strays(ls, end)
    ensures !FieldWalk(Encoded(ls) + end).Fault?
    ensures |FieldText(Encoded(ls) + end)| <= |Joined(ls, DOT)|
    ensures FieldText(Encoded(ls) + end) == Joined(ls, DOT) <==> LandsHarmlessly(ls, end[1])
    ensures 1 <= end[1] <= |Joined(ls, DOT)| && 2 <= Joined(ls, DOT)[end[1] - 1] <= MAX_LABEL_LENGTH ==>
              FieldText(Encoded(ls) + end) == Joined(ls, DOT)[end[1] - 1 := DOT]
  {
    var n, low, wire, j := |Encoded(ls)|, end[1], Encoded(ls) + end, Joined(ls, DOT);
    FieldFaults(wire, ls, end) by { assert NameShape(wire, ls, end); }
    PointerIsFollowed(ls, end);
    LabelsInField(ls, low);
    CleanText(ls);
    var mem := FieldWalk(wire).mem;
    WalkKeepsLength(Replace, Field(wire), |wire|, 0, 0, DOT);
    Settled(Landing(ls, low), n + 2, low, n, n);
    hide WalkFrom, FieldWalk;
    var s := Shifted(mem, n + 2);
    assert s[n - 1] == 0;
    if LandsHarmlessly(ls, low) {
      TextIsKept(ls, end);
    } else {
      HarmedOctet(ls, low);
      assert s[low - 1] == mem[low] != j[low - 1];
    }
    if 1 <= low <= |j| && 2 <= j[low - 1] <= MAX_LABEL_LENGTH {
      DottedOctet(ls, low);
      var text := j[low - 1 := DOT];
      assert mem[1..n] == text;
      TextInField(mem, n + 2, text);
      assert 0 !in text;
      CStringUnique(text, text);
    }
  }

  /** "abcdefghijk9m" in front of a pointer to the message's first question comes out as "abcdefghijk.m". */
  lemma CompressedNameLosesDigit()
    ensures var l: seq<byte> := [97, 98, 99, 100, 101, 102, 103, 104, 105, 106, 107, 57, 109];
            var wire := Encoded([l]) + [0xC0, 12];
            && |wire| < MAX_DOMAIN_NAME_LEN && !FieldWalk(wire).Fault?
            && FieldText(wire) == [97, 98, 99, 100, 101, 102, 103, 104, 105, 106, 107, DOT, 109]
  {
    var l: seq<byte> := [97, 98, 99, 100, 101, 102, 103, 104, 105, 106, 107, 57, 109];
    assert [l][1..] == [];
    assert Encoded([l]) == [13] + l;
    assert Joined([l], DOT) == l;
    TextOfCompressedName([l], [0xC0, 12]);
  }

  /** A name that is a pointer and nothing else gets the pointer's low octet for its text, or a dot if that is one. */
  lemma TextOfBarePointer(end: seq<byte>)
    requires IsPointer(end)
    ensures !FieldWalk(end).Fault?
    ensures FieldText(end) == CString([if end[1] == 1 then DOT else end[1]])
  {
    var low := end[1];
    assert Encoded([]) + end == end;
    PointerIsFollowed([], end);
    BarePointerWalk(low);
    hide WalkFrom, FieldWalk, Landing;
    var s := Shifted(FieldWalk(end).mem, 2);
    assert s == [s[0]] + s[1..];
    CStringOfPrefix([s[0]], s[1..]);
  }

  lemma BarePointerWalk(low: byte)
    ensures var w := WalkFrom(Replace, Landing([], low), 2, low, 0, DOT);
            w.Done? && |w.mem| == MAX_DOMAIN_NAME_LEN && w.mem[1] == if low == 1 then DOT else low
  {
    var mem := Landing([], low);
    assert Encoded([]) == [];
    assert mem[0] == 0 && mem[1] == low && forall i :: 2 <= i < |mem| ==> mem[i] == 0;
    hide Landing;
    if low == 1 {
      var after := mem[1 := DOT];
      assert TurnAt(Replace, mem, 2, 1, 0, DOT) == Go(after, DOT, 3, 2);
      assert TurnAt(Replace, after, 2, 3, 2, DOT) == Stop(false, after, DOT);
      hide TurnAt;
      assert WalkFrom(Replace, after, 2, 3, 2, DOT) == Done(false, after, DOT);
    } else {
      assert mem[low] == 0;
      assert TurnAt(Replace, mem, 2, low, 0, DOT) == Stop(true, mem, DOT);
      hide TurnAt;
    }
  }
}
