/** The generic label walker parse_dns_labels with its two callbacks, the wire-length calculator and the
    in-place rewriting of a wire name into dotted text. */
module DnsWalks {
  import opened DnsNames
  import opened Splitting

  /** The two callbacks handed to the walker.  Both get one octet behind p_params: the accumulator of
      accumulate_label_length, or the replacement octet of replace_label_length_octet. */
  datatype Access = Accumulate | Replace

  /** Fault: the walk touches an octet outside the memory it was given, which C leaves undefined. */
  datatype Walk = Fault | Done(result: bool, mem: seq<byte>, param: byte)

  datatype Visit = Visit(mem: seq<byte>, param: byte, go: bool)

  function VisitOctet(access: Access, mem: seq<byte>, offset: nat, param: byte): Visit
    requires offset < |mem|
  {
    var octet := mem[offset];
    match access
    case Accumulate =>
      if MIN_POINTER_VALUE <= octet then Visit(mem, (param + 2) % 0x100, false)
      else if octet <= MAX_LABEL_LENGTH && param + 1 + octet <= MAX_LABELS_LENGTH then
        Visit(mem, param + 1 + octet, true)
      else Visit(mem, param, false)
    case Replace =>
      if MIN_POINTER_VALUE <= octet then Visit(mem[offset := 0], param, true)
      else if 0 < octet <= MAX_LABEL_LENGTH then Visit(mem[offset := param], param, true)
      else Visit(mem, param, true)
  }

  /** The number of octets that a walk could take for a compression pointer. */
  ghost function PointerOctets(mem: seq<byte>): nat {
    if mem == [] then 0
    else PointerOctets(mem[..|mem| - 1]) + if MIN_POINTER_VALUE <= mem[|mem| - 1] then 1 else 0
  }

  lemma {:induction false} ZeroingPointer(mem: seq<byte>, i: nat)
    requires i < |mem| && MIN_POINTER_VALUE <= mem[i]
    ensures PointerOctets(mem[i := 0]) < PointerOctets(mem)
  {
    var n := |mem| - 1;
    if i == n {
      assert mem[i := 0][..n] == mem[..n];
    } else {
      assert mem[i := 0][..n] == mem[..n][i := 0];
      ZeroingPointer(mem[..n], i);
    }
  }

  /** One turn of the walker's loop: leave the memory, stop with a verdict, or go on at an offset. */
  datatype Turn = OutOfMemory
                | Stop(result: bool, mem: seq<byte>, param: byte)
                | Go(mem: seq<byte>, param: byte, offset: word, total: nat)

  function TurnAt(access: Access, mem: seq<byte>, packetLength: word, offset: word, total: nat, param: byte): Turn {
    if offset >= |mem| then OutOfMemory
    else
      var length: int := mem[offset];
      var v := VisitOctet(access, mem, offset, param);
      var expected := total + 1 + length;
      if MAX_LABEL_LENGTH < length < MIN_POINTER_VALUE then Stop(false, v.mem, v.param)
      else if length <= MAX_LABEL_LENGTH && (MAX_LABELS_LENGTH < expected || packetLength < expected) then
        Stop(false, v.mem, v.param)
      else if !v.go || length == 0 then Stop(true, v.mem, v.param)
      else if MIN_POINTER_VALUE <= length then
        if offset + 1 >= |mem| then OutOfMemory
        else Go(v.mem, v.param, (v.mem[offset] % 0x40) * 0x100 + v.mem[offset + 1], total)
      else Go(v.mem, v.param, (offset + 1 + length) % 0x1_0000, expected)
  }

  /** A turn that goes on has raised total, or has zeroed the pointer it follows. */
  lemma TurnProgress(access: Access, mem: seq<byte>, packetLength: word, offset: word, total: nat, param: byte)
    requires TurnAt(access, mem, packetLength, offset, total, param).Go?
    ensures var t := TurnAt(access, mem, packetLength, offset, total, param);
            |t.mem| == |mem| &&
            if mem[offset] < MIN_POINTER_VALUE then total < t.total <= MAX_LABELS_LENGTH
            else t.total == total && PointerOctets(t.mem) < PointerOctets(mem)
  {
    if MIN_POINTER_VALUE <= mem[offset] {
      ZeroingPointer(mem, offset);
    }
  }

  /** The walk from offset, total label octets already behind it.  It ends on every memory content, pointer
      cycles included. */
  ghost function WalkFrom(access: Access, mem: seq<byte>, packetLength: word, offset: word, total: nat,
                          param: byte): Walk
    requires total <= MAX_LABELS_LENGTH
    decreases MAX_LABELS_LENGTH - total, PointerOctets(mem)
  {
    match TurnAt(access, mem, packetLength, offset, total, param)
    case OutOfMemory => Fault
    case Stop(result, mem', param') => Done(result, mem', param')
    case Go(mem', param', offset', total') =>
      TurnProgress(access, mem, packetLength, offset, total, param);
      WalkFrom(access, mem', packetLength, offset', total', param')
  }

  /** A walk is its first turn and the walk from there. */
  lemma WalkTurn(access: Access, mem: seq<byte>, packetLength: word, offset: word, total: nat, param: byte)
    requires total <= MAX_LABELS_LENGTH
    ensures var w := WalkFrom(access, mem, packetLength, offset, total, param);
            match TurnAt(access, mem, packetLength, offset, total, param)
            case OutOfMemory => w == Fault
            case Stop(result, mem', param') => w == Done(result, mem', param')
            case Go(mem', param', offset', total') =>
              && total' <= MAX_LABELS_LENGTH && w == WalkFrom(access, mem', packetLength, offset', total', param')
              && (total < total' || (total == total' && PointerOctets(mem') < PointerOctets(mem)))
  {
    if TurnAt(access, mem, packetLength, offset, total, param).Go? {
      TurnProgress(access, mem, packetLength, offset, total, param);
    }
  }

  class Param {
    var octet: byte

    constructor (octet: byte)
      ensures this.octet == octet
    {
      this.octet := octet;
    }
  }

  method AccumulateLabelLength(packet: array<byte>, offset: nat, param: Param) returns (go: bool)
    requires offset < packet.Length
    modifies param
    ensures Visit(packet[..], param.octet, go) == VisitOctet(Accumulate, packet[..], offset, old(param.octet))
  {
    go := false;
    var octet := packet[offset];
    if MIN_POINTER_VALUE <= octet {
      param.octet := (param.octet + 2) % 0x100;
    } else if octet <= MAX_LABEL_LENGTH && param.octet + 1 + octet <= MAX_LABELS_LENGTH {
      param.octet := param.octet + 1 + octet;
      go := true;
    }
  }

  method ReplaceLabelLengthOctet(packet: array<byte>, offset: nat, param: Param) returns (go: bool)
    requires offset < packet.Length
    modifies packet
    ensures Visit(packet[..], param.octet, go) == VisitOctet(Replace, old(packet[..]), offset, param.octet)
  {
    if MIN_POINTER_VALUE <= packet[offset] {
      packet[offset] := 0;
    } else if packet[offset] <= MAX_LABEL_LENGTH && 0 < packet[offset] {
      packet[offset] := param.octet;
    }
    go := true;
  }

  /** faulted: the next octet to be touched is outside the memory. */
  method ParseDnsLabels(packet: array<byte>, packetLength: word, startOffset: word, access: Access, param: Param)
    returns (faulted: bool, result: bool)
    modifies packet, param
    ensures WalkFrom(access, old(packet[..]), packetLength, startOffset, 0, old(param.octet))
         == if faulted then Fault else Done(result, packet[..], param.octet)
    ensures access == Accumulate ==> packet[..] == old(packet[..])
  {
    hide WalkFrom, PointerOctets;
    faulted, result := false, false;
    var offset: word := startOffset;
    var totalLabelsLength: int := 0;
    ghost var walk := WalkFrom(access, packet[..], packetLength, startOffset, 0, param.octet);
    while true
      invariant 0 <= totalLabelsLength <= MAX_LABELS_LENGTH
      invariant access == Accumulate ==> packet[..] == old(packet[..])
      invariant WalkFrom(access, packet[..], packetLength, offset, totalLabelsLength, param.octet) == walk
      decreases MAX_LABELS_LENGTH - totalLabelsLength, PointerOctets(packet[..])
    {
      ghost var before, octet := packet[..], param.octet;
      ghost var turn := TurnAt(access, before, packetLength, offset, totalLabelsLength, octet);
      WalkTurn(access, before, packetLength, offset, totalLabelsLength, octet);
      if offset >= packet.Length {
        return true, false;
      }
      var currentLabelLength: int := packet[offset];
      var go;
      if access == Accumulate {
        go := AccumulateLabelLength(packet, offset, param);
      } else {
        go := ReplaceLabelLengthOctet(packet, offset, param);
      }
      assert Visit(packet[..], param.octet, go) == VisitOctet(access, before, offset, octet);
      var expected := totalLabelsLength + 1 + currentLabelLength;
      if MAX_LABEL_LENGTH < currentLabelLength && MIN_POINTER_VALUE > currentLabelLength {
        return false, false;
      } else if MAX_LABEL_LENGTH >= currentLabelLength
             && (MAX_LABELS_LENGTH < expected || packetLength < expected) {
        return false, false;
      } else if !go {
        return false, true;
      } else if 0 == currentLabelLength {
        return false, true;
      } else if MIN_POINTER_VALUE <= currentLabelLength {
        if offset + 1 >= packet.Length {
          return true, false;
        }
        offset := (packet[offset] % 0x40) * 0x100 + packet[offset + 1];
      } else {
        offset := (offset + 1 + currentLabelLength) % 0x1_0000;
        totalLabelsLength := expected;
      }
      assert turn == Go(packet[..], param.octet, offset, totalLabelsLength);
    }
  }

  // ----- the verdict -----

  /** An octet of 64 to 191 ends either walk with the verdict false, and leaves memory and parameter alone. */
  lemma BadOctetStops(access: Access, mem: seq<byte>, packetLength: word, offset: word, total: nat, param: byte)
    requires total <= 255 && offset < |mem| && 64 <= mem[offset] <= 191
    ensures WalkFrom(access, mem, packetLength, offset, total, param) == Done(false, mem, param)
  {
  }

  /** A label that takes the total over 255 octets, or over the packet's length, ends either walk with the verdict
      false; so does the root octet.  The callback has seen its length octet: it has counted the label if it could, or
      replaced the octet of a label that is not the root. */
  lemma LongLabelStops(access: Access, mem: seq<byte>, packetLength: word, offset: word, total: nat, param: byte)
    requires total <= 255 && offset < |mem| && mem[offset] <= 63
    requires total + 1 + mem[offset] > 255 || total + 1 + mem[offset] > packetLength
    ensures WalkFrom(access, mem, packetLength, offset, total, param)
         == if access == Replace then Done(false, if mem[offset] == 0 then mem else mem[offset := param], param)
            else Done(false, mem, if param + 1 + mem[offset] as int <= 255 then param + 1 + mem[offset] else param)
  {
  }

  /** The verdict is true at a root octet, and for the measuring walk at a pointer, which counts as two octets. */
  lemma EndStops(access: Access, mem: seq<byte>, packetLength: word, offset: word, total: nat, param: byte)
    requires offset < |mem|
    ensures mem[offset] == 0 && total + 1 <= 255 && total + 1 <= packetLength ==>
              WalkFrom(access, mem, packetLength, offset, total, param)
              == Done(true, mem, if access == Accumulate && param <= 254 then param + 1 else param)
    ensures access == Accumulate && mem[offset] >= 192 && total <= 255 ==>
              WalkFrom(access, mem, packetLength, offset, total, param) == Done(true, mem, (param + 2) % 256)
  {
  }

  // ----- how far the rewriting walk can reach -----

  /** Started at 0, the rewriting walk touches no octet past index 511, whatever the memory holds. */
  lemma {:induction false} RewriteReach(mem: seq<byte>, packetLength: word, offset: word, total: nat, c: byte)
    requires total <= MAX_LABELS_LENGTH && offset <= MAX_LABELS_LENGTH + total
    requires |mem| >= 512
    ensures !WalkFrom(Replace, mem, packetLength, offset, total, c).Fault?
    decreases MAX_LABELS_LENGTH - total, PointerOctets(mem)
  {
    var turn := TurnAt(Replace, mem, packetLength, offset, total, c);
    if turn.Go? {
      TurnProgress(Replace, mem, packetLength, offset, total, c);
      RewriteReach(turn.mem, packetLength, turn.offset, turn.total, c);
    }
  }

  /** The bound is met: one octet less and this content makes the walk leave the memory. */
  ghost function FarReaching(n: nat): seq<byte> {
    seq(n, i => if i == 0 || i == 510 then 0xC0
                else if i == 1 then 0xFF
                else if i == 255 || i == 319 || i == 383 then 63
                else if i == 447 then 62
                else 0)
  }

  lemma RewriteReachIsTight()
    ensures WalkFrom(Replace, FarReaching(511), 255, 0, 0, DOT).Fault?
  {
    var m0 := FarReaching(511);
    var m1 := m0[0 := 0];
    var m2 := m1[255 := DOT];
    var m3 := m2[319 := DOT];
    var m4 := m3[383 := DOT];
    var m5 := m4[447 := DOT];
    assert TurnAt(Replace, m0, 255, 0, 0, DOT) == Go(m1, DOT, 255, 0);
    assert TurnAt(Replace, m1, 255, 255, 0, DOT) == Go(m2, DOT, 319, 64);
    assert TurnAt(Replace, m2, 255, 319, 64, DOT) == Go(m3, DOT, 383, 128);
    assert TurnAt(Replace, m3, 255, 383, 128, DOT) == Go(m4, DOT, 447, 192);
    assert TurnAt(Replace, m4, 255, 447, 192, DOT) == Go(m5, DOT, 510, 255);
    assert TurnAt(Replace, m5, 255, 510, 255, DOT) == OutOfMemory;
    assert WalkFrom(Replace, m3, 255, 383, 128, DOT).Fault?;
  }

  // ----- the wire-length calculator -----

  ghost predicate At(mem: seq<byte>, offset: nat, w: seq<byte>) {
    offset + |w| <= |mem| && forall i {:trigger w[i]} :: 0 <= i < |w| ==> mem[offset + i] == w[i]
  }

  lemma AtSplit(mem: seq<byte>, offset: nat, a: seq<byte>, b: seq<byte>)
    ensures At(mem, offset, a + b) <==> At(mem, offset, a) && At(mem, offset + |a|, b)
  {
    if At(mem, offset, a + b) {
      assert forall i :: 0 <= i < |a| ==> a[i] == (a + b)[i];
      assert forall i :: 0 <= i < |b| ==> b[i] == (a + b)[|a| + i];
    }
  }

  /** How a name ends on the wire: the root octet, or a pointer into the message (section 4.1.4 of RFC 1035). */
  ghost predicate IsTerminator(end: seq<byte>) {
    end == [0] || (|end| == 2 && MIN_POINTER_VALUE <= end[0])
  }

  /** While it counts, the 8-bit accumulator equals the walker's own 16-bit total. */
  lemma AccumulatorIsTotal(mem: seq<byte>, packetLength: word, offset: word, total: nat)
    requires total <= MAX_LABELS_LENGTH
    ensures var t := TurnAt(Accumulate, mem, packetLength, offset, total, total);
            t.Go? ==> t.param == t.total && t.mem == mem
  {
  }

  lemma MeasureLabel(mem: seq<byte>, packetLength: word, offset: word, total: nat, l: seq<byte>)
    requires IsLabel(l) && At(mem, offset, [LengthOctet(l)] + l)
    requires total + 1 + |l| <= MAX_LABELS_LENGTH && total + 1 + |l| <= packetLength && offset + 1 + |l| < 0x1_0000
    ensures TurnAt(Accumulate, mem, packetLength, offset, total, total)
         == Go(mem, total + 1 + |l|, offset + 1 + |l|, total + 1 + |l|)
  {
    assert mem[offset] == ([LengthOctet(l)] + l)[0];
  }

  /** The measuring walk passes over well-formed labels and counts each with its length octet. */
  lemma {:induction false} MeasureLabels(mem: seq<byte>, packetLength: word, offset: word, total: nat, ls: Labels)
    requires AreLabels(ls) && At(mem, offset, Encoded(ls))
    requires total + |Encoded(ls)| <= MAX_LABELS_LENGTH && total + |Encoded(ls)| <= packetLength
    requires offset + |Encoded(ls)| < 0x1_0000
    ensures WalkFrom(Accumulate, mem, packetLength, offset, total, total)
         == WalkFrom(Accumulate, mem, packetLength, offset + |Encoded(ls)|,
                     total + |Encoded(ls)|, total + |Encoded(ls)|)
    decreases |ls|
  {
    hide TurnAt, WalkFrom;
    if ls != [] {
      var step := 1 + |ls[0]|;
      FirstLabelAt(mem, offset, ls);
      MeasureLabel(mem, packetLength, offset, total, ls[0]);
      WalkTurn(Accumulate, mem, packetLength, offset, total, total);
      MeasureLabels(mem, packetLength, offset + step, total + step, ls[1..]);
    }
  }

  lemma FirstLabelAt(mem: seq<byte>, offset: nat, ls: Labels)
    requires ls != [] && AreLabels(ls) && At(mem, offset, Encoded(ls))
    ensures var step := 1 + |ls[0]|;
            && IsLabel(ls[0]) && |Encoded(ls)| == step + |Encoded(ls[1..])|
            && At(mem, offset, [LengthOctet(ls[0])] + ls[0]) && At(mem, offset + 1, ls[0])
            && At(mem, offset + step, Encoded(ls[1..]))
  {
    var first := [LengthOctet(ls[0])] + ls[0];
    assert IsLabel(ls[0]);
    assert Encoded(ls) == first + Encoded(ls[1..]);
    AtSplit(mem, offset, first, Encoded(ls[1..]));
    AtSplit(mem, offset, [LengthOctet(ls[0])], ls[0]);
  }

  /** The length that calculate_name_length reports for a name at offset. */
  ghost function Measured(mem: seq<byte>, packetLength: word, offset: byte): (r: Walk)
  {
    WalkFrom(Accumulate, mem, packetLength, offset, 0, 0)
  }

  method CalculateNameLength(packet: array<byte>, packetLength: word, offset: byte)
    returns (faulted: bool, length: byte)
    modifies packet
    ensures packet[..] == old(packet[..])
    ensures var m := Measured(packet[..], packetLength, offset);
            if faulted then m.Fault? else m.Done? && length == m.param
  {
    var nameLength := new Param(0);
    var result;
    faulted, result := ParseDnsLabels(packet, packetLength, offset, Accumulate, nameLength);
    length := nameLength.octet;
  }

  /** A name that ends in a root octet or a pointer, has wire size at most 255 and lies inside the packet is
      measured exactly, wherever it starts below offset 256. */
  lemma MeasuredIsWireLength(mem: seq<byte>, packetLength: word, offset: byte, ls: Labels, end: seq<byte>)
    requires AreLabels(ls) && IsTerminator(end)
    requires At(mem, offset, Encoded(ls) + end)
    requires |Encoded(ls) + end| <= MAX_LABELS_LENGTH && offset + |Encoded(ls) + end| <= packetLength
    ensures Measured(mem, packetLength, offset) == Done(true, mem, |Encoded(ls) + end|)
  {
    var e := Encoded(ls);
    AtSplit(mem, offset, e, end);
    assert mem[offset + |e|] == end[0];
    hide WalkFrom, TurnAt, At, Encoded;
    MeasureLabels(mem, packetLength, offset, 0, ls);
    MeasureEnd(mem, packetLength, offset + |e|, |e|, end);
    WalkTurn(Accumulate, mem, packetLength, offset + |e|, |e|, |e|);
  }

  lemma MeasureEnd(mem: seq<byte>, packetLength: word, offset: word, total: nat, end: seq<byte>)
    requires offset < |mem| && IsTerminator(end) && mem[offset] == end[0]
    requires total + |end| <= MAX_LABELS_LENGTH && total + |end| <= packetLength
    ensures TurnAt(Accumulate, mem, packetLength, offset, total, total) == Stop(true, mem, total + |end|)
  {
  }

  // ----- the rewriting into dotted text -----

  /** mem with w written over it from offset on. */
  ghost function Overlay(mem: seq<byte>, offset: nat, w: seq<byte>): seq<byte>
    requires offset + |w| <= |mem|
  {
    mem[..offset] + w + mem[offset + |w|..]
  }

  lemma RewriteLabel(mem: seq<byte>, packetLength: word, offset: byte, l: seq<byte>, c: byte)
    requires IsLabel(l) && At(mem, offset, [LengthOctet(l)] + l)
    requires offset + 1 + |l| <= MAX_LABELS_LENGTH && offset + 1 + |l| <= packetLength
    ensures TurnAt(Replace, mem, packetLength, offset, offset, c)
         == Go(mem[offset := c], c, offset + 1 + |l|, offset + 1 + |l|)
  {
    assert mem[offset] == ([LengthOctet(l)] + l)[0];
  }

  lemma OverlayLabel(mem: seq<byte>, offset: nat, l: seq<byte>, w: seq<byte>, c: byte)
    requires offset + 1 + |l| + |w| <= |mem| && At(mem, offset + 1, l)
    ensures Overlay(mem[offset := c], offset + 1 + |l|, w) == Overlay(mem, offset, [c] + l + w)
  {
    assert mem[offset + 1..offset + 1 + |l|] == l;
    assert mem[offset := c][..offset + 1 + |l|] == mem[..offset] + [c] + l;
  }

  /** The rewriting walk replaces every length octet of well-formed labels and leaves the rest alone. */
  lemma {:induction false} RewriteLabels(mem: seq<byte>, packetLength: word, offset: byte, ls: Labels, c: byte)
    requires AreLabels(ls) && At(mem, offset, Encoded(ls))
    requires offset + |Encoded(ls)| <= MAX_LABELS_LENGTH && offset + |Encoded(ls)| <= packetLength
    ensures |Dotted(ls, c)| == |Encoded(ls)|
    ensures WalkFrom(Replace, mem, packetLength, offset, offset, c)
         == WalkFrom(Replace, Overlay(mem, offset, Dotted(ls, c)), packetLength,
                     offset + |Encoded(ls)|, offset + |Encoded(ls)|, c)
    decreases |ls|
  {
    hide TurnAt, WalkFrom;
    DottedLength(ls, c);
    if ls == [] {
      assert Overlay(mem, offset, []) == mem;
    } else {
      var l, rest := ls[0], ls[1..];
      FirstLabelAt(mem, offset, ls);
      RewriteLabel(mem, packetLength, offset, l, c);
      WalkTurn(Replace, mem, packetLength, offset, offset, c);
      RewriteLabels(mem[offset := c], packetLength, offset + 1 + |l|, rest, c);
      OverlayLabel(mem, offset, l, Dotted(rest, c), c);
    }
  }

  function Shifted(mem: seq<byte>, n: nat): (r: seq<byte>)
    requires 1 <= n <= |mem|
    ensures |r| == |mem|
  {
    mem[1..n] + [0] + mem[n..]
  }

  method NameTransFormat(name: array<byte>, nameLen: word) returns (faulted: bool)
    requires 1 <= nameLen <= name.Length
    modifies name
    ensures var w := WalkFrom(Replace, old(name[..]), nameLen, 0, 0, DOT);
            && faulted == w.Fault?
            && (!faulted ==> |w.mem| == name.Length && name[..] == Shifted(w.mem, nameLen))
  {
    var replaceOctet := new Param(DOT);
    var result;
    faulted, result := ParseDnsLabels(name, nameLen, 0, Replace, replaceOctet);
    if !faulted {
      WalkKeepsLength(Replace, old(name[..]), nameLen, 0, 0, DOT);
      MoveDown(name, nameLen);
    }
  }

  // memmove(name, name + 1, n - 1); name[n - 1] = 0
  method MoveDown(name: array<byte>, n: nat)
    requires 1 <= n <= name.Length
    modifies name
    ensures name[..] == Shifted(old(name[..]), n)
  {
    for i := 0 to n - 1
      invariant forall j :: 0 <= j < i ==> name[j] == old(name[j + 1])
      invariant forall j :: i <= j < name.Length ==> name[j] == old(name[j])
    {
      name[i] := name[i + 1];
    }
    name[n - 1] := 0;
  }

  const MAX_DOMAIN_NAME_LEN := 256

  function Zeros(n: nat): (r: seq<byte>)
    ensures |r| == n && forall i :: 0 <= i < n ==> r[i] == 0
  {
    Copies(0, n)
  }

  /** The zeroed name field of a DNSQuery or DNSResponse after the wire octets are copied into it. */
  function Field(wire: seq<byte>): (r: seq<byte>)
    requires |wire| < MAX_DOMAIN_NAME_LEN
    ensures |r| == MAX_DOMAIN_NAME_LEN && wire <= r
  {
    wire + Zeros(MAX_DOMAIN_NAME_LEN - |wire|)
  }

  ghost function FieldWalk(wire: seq<byte>): Walk
    requires |wire| < MAX_DOMAIN_NAME_LEN
  {
    WalkFrom(Replace, Field(wire), |wire|, 0, 0, DOT)
  }

  lemma {:induction false} WalkKeepsLength(access: Access, mem: seq<byte>, packetLength: word, offset: word,
                                           total: nat, param: byte)
    requires total <= MAX_LABELS_LENGTH
    ensures var w := WalkFrom(access, mem, packetLength, offset, total, param);
            w.Done? ==> |w.mem| == |mem|
    decreases MAX_LABELS_LENGTH - total, PointerOctets(mem)
  {
    var t := TurnAt(access, mem, packetLength, offset, total, param);
    if t.Go? {
      TurnProgress(access, mem, packetLength, offset, total, param);
      WalkKeepsLength(access, t.mem, packetLength, t.offset, t.total, t.param);
    }
  }

  /** The C string that nameTransFormat leaves in the field. */
  ghost function FieldText(wire: seq<byte>): seq<byte>
    requires 1 <= |wire| < MAX_DOMAIN_NAME_LEN && !FieldWalk(wire).Fault?
  {
    WalkKeepsLength(Replace, Field(wire), |wire|, 0, 0, DOT);
    CString(Shifted(FieldWalk(wire).mem, |wire|))
  }

  /** An uncompressed name becomes its labels joined by dots, cut at the first NUL as every C string is; the
      walk stays inside the field. */
  lemma TextOfName(ls: Labels)
    requires AreLabels(ls) && WireSize(ls) <= MAX_LABELS_LENGTH
    ensures !FieldWalk(Encoded(ls) + [0]).Fault?
    ensures FieldText(Encoded(ls) + [0]) == NameText(ls)
  {
    var wire := Encoded(ls) + [0];
    RewrittenField(ls);
    if ls == [] {
      assert Shifted(FieldWalk(wire).mem, 1)[0] == 0;
    } else {
      DottedIsJoined(ls, DOT);
      var j := Joined(ls, DOT);
      DottedLength(ls, DOT);
      assert Shifted(FieldWalk(wire).mem, |wire|) == j + ([0, 0] + Zeros(MAX_DOMAIN_NAME_LEN - |wire|));
      CStringOfPrefix(j, [0, 0] + Zeros(MAX_DOMAIN_NAME_LEN - |wire|));
    }
  }

  lemma RewrittenField(ls: Labels)
    requires AreLabels(ls) && WireSize(ls) <= MAX_LABELS_LENGTH
    ensures FieldWalk(Encoded(ls) + [0])
         == Done(true, Dotted(ls, DOT) + [0] + Zeros(MAX_DOMAIN_NAME_LEN - WireSize(ls)), DOT)
  {
    var n, e := WireSize(ls), Encoded(ls);
    var field := Field(e + [0]);
    var mem := Dotted(ls, DOT) + [0] + Zeros(MAX_DOMAIN_NAME_LEN - n);
    RewriteLabels(field, n, 0, ls, DOT);
    assert field[|e|..] == [0] + Zeros(MAX_DOMAIN_NAME_LEN - n);
    assert Overlay(field, 0, Dotted(ls, DOT)) == mem;
    assert TurnAt(Replace, mem, n, n - 1, n - 1, DOT) == Stop(true, mem, DOT);
  }

  /** With NUL-free labels nothing is cut: the text is all the labels joined by dots, two octets shorter than
      the wire form (none for the root). */
  lemma TextOfCleanName(ls: Labels)
    requires AreLabels(ls) && WireSize(ls) <= MAX_LABELS_LENGTH && Free(ls, 0)
    ensures !FieldWalk(Encoded(ls) + [0]).Fault?
    ensures FieldText(Encoded(ls) + [0]) == Joined(ls, DOT)
    ensures |Joined(ls, DOT)| == if ls == [] then 0 else WireSize(ls) - 2
  {
    TextOfName(ls);
    CleanText(ls);
    DottedLength(ls, DOT);
    if ls != [] {
      DottedIsJoined(ls, DOT);
    }
  }
}
