/** The retrying read and write loops, with the system call as an oracle. */
module AllIo {
  import opened Splitting

  datatype Errno = EAGAIN | EINTR | OtherErrno

  // ----- read_all -----

  /** ret > 0 with its octets, ret == 0, or ret < 0 with errno. */
  datatype ReadReply = Delivered(octets: string) | EndOfFile | ReadFailed(errno: Errno)

  /** kernel(k, count) answers call number k, made with room for count octets. */
  type Kernel = (nat, nat) -> ReadReply

  /** A call delivers at least one octet and no more than there is room for. */
  ghost predicate Honest(kernel: Kernel) {
    forall k: nat, count: nat :: kernel(k, count).Delivered? ==> 1 <= |kernel(k, count).octets| <= count
  }

  const MAX_TRIES := 5

  predicate Retryable(r: ReadReply) {
    r.EndOfFile? || (r.ReadFailed? && r.errno != OtherErrno)
  }

  /** End of file is retried as EAGAIN and EINTR are, and no other error is. */
  lemma RetriedExactly(r: ReadReply)
    ensures Retryable(r) <==> r in {EndOfFile, ReadFailed(EAGAIN), ReadFailed(EINTR)}
  {
  }

  /** The replies that read_all gets from call k on, with room for count octets and some retries used up. */
  ghost function Log(kernel: Kernel, k: nat, count: nat, tries: nat): seq<ReadReply>
    requires Honest(kernel) && tries <= MAX_TRIES
    decreases count, MAX_TRIES - tries
  {
    if count == 0 then []
    else
      var r := kernel(k, count);
      if r.Delivered? then [r] + Log(kernel, k + 1, count - |r.octets|, 0)
      else if Retryable(r) && tries < MAX_TRIES then [r] + Log(kernel, k + 1, count, tries + 1)
      else [r]
  }

  /** The octets delivered by some replies, in order. */
  ghost function Octets(log: seq<ReadReply>): string {
    if log == [] then ""
    else (if log[0].Delivered? then log[0].octets else "") + Octets(log[1..])
  }

  lemma {:induction false} OctetsAppend(log: seq<ReadReply>, r: ReadReply)
    ensures Octets(log + [r]) == Octets(log) + if r.Delivered? then r.octets else ""
  {
    if log == [] {
      assert [r][1..] == [];
    } else {
      var first, rest := if log[0].Delivered? then log[0].octets else "", log[1..];
      OctetsAppend(rest, r);
      assert (log + [r])[0] == log[0] && (log + [r])[1..] == rest + [r];
      hide Octets;
      Reassociate(first, Octets(rest), if r.Delivered? then r.octets else "");
    }
  }

  lemma {:induction false} LogFits(kernel: Kernel, k: nat, count: nat, tries: nat)
    requires Honest(kernel) && tries <= MAX_TRIES
    ensures |Octets(Log(kernel, k, count, tries))| <= count
    decreases count, MAX_TRIES - tries
  {
    if count > 0 {
      var r := kernel(k, count);
      if r.Delivered? {
        LogFits(kernel, k + 1, count - |r.octets|, 0);
        assert ([r] + Log(kernel, k + 1, count - |r.octets|, 0))[1..] == Log(kernel, k + 1, count - |r.octets|, 0);
      } else if Retryable(r) && tries < MAX_TRIES {
        LogFits(kernel, k + 1, count, tries + 1);
        assert ([r] + Log(kernel, k + 1, count, tries + 1))[1..] == Log(kernel, k + 1, count, tries + 1);
      } else {
        assert [r][1..] == [];
      }
    }
  }

  /** Whatever the kernel answers, reading count octets takes at most 6 * count calls. */
  lemma {:induction false} CallBound(kernel: Kernel, k: nat, count: nat, tries: nat)
    requires Honest(kernel) && tries <= MAX_TRIES
    ensures |Log(kernel, k, count, tries)| <= if count == 0 then 0 else 6 * count - tries
    decreases count, MAX_TRIES - tries
  {
    if count > 0 {
      var r := kernel(k, count);
      if r.Delivered? {
        CallBound(kernel, k + 1, count - |r.octets|, 0);
      } else if Retryable(r) && tries < MAX_TRIES {
        CallBound(kernel, k + 1, count, tries + 1);
      }
    }
  }

  /** Five empty answers before every octet: the bound is met for every count. */
  ghost function Stingy(): Kernel {
    (k: nat, count: nat) => if count > 0 && k % (MAX_TRIES + 1) == MAX_TRIES then Delivered("x") else EndOfFile
  }

  lemma {:induction false} CallBoundIsTight(k: nat, count: nat, tries: nat)
    requires k % (MAX_TRIES + 1) == tries
    ensures Honest(Stingy())
    ensures |Log(Stingy(), k, count, tries)| == if count == 0 then 0 else 6 * count - tries
    decreases count, MAX_TRIES - tries
  {
    if count > 0 {
      var reply := Stingy()(k, count);
      if tries < MAX_TRIES {
        assert reply == EndOfFile;
        CallBoundIsTight(k + 1, count, tries + 1);
        hide Stingy;
        assert Log(Stingy(), k, count, tries) == [reply] + Log(Stingy(), k + 1, count, tries + 1);
      } else {
        assert reply == Delivered("x");
        CallBoundIsTight(k + 1, count - 1, 0);
        hide Stingy;
        assert Log(Stingy(), k, count, tries) == [reply] + Log(Stingy(), k + 1, count - 1, 0);
      }
    }
  }

  /** Call number i asks for exactly the room that the replies before it have left, and its reply is the i-th. */
  lemma {:induction false} LogAsks(kernel: Kernel, k: nat, count: nat, tries: nat, i: nat)
    requires Honest(kernel) && tries <= MAX_TRIES && i < |Log(kernel, k, count, tries)|
    ensures var log := Log(kernel, k, count, tries);
            |Octets(log[..i])| <= count && log[i] == kernel(k + i, count - |Octets(log[..i])|)
    decreases i
  {
    hide Octets;
    var r, log := kernel(k, count), Log(kernel, k, count, tries);
    assert log[0] == r;
    if i == 0 {
      NoOctets();
      assert log[..0] == [];
    } else {
      var left := if r.Delivered? then count - |r.octets| else count;
      var tries' := if r.Delivered? then 0 else tries + 1;
      var rest := Log(kernel, k + 1, left, tries');
      assert log == [r] + rest;
      LogAsks(kernel, k + 1, left, tries', i - 1);
      assert log[..i] == [r] + rest[..i - 1];
      OctetsBehind(r, rest[..i - 1]);
    }
  }

  lemma NoOctets()
    ensures Octets([]) == ""
  {
  }

  lemma OctetsBehind(r: ReadReply, rest: seq<ReadReply>)
    ensures Octets([r] + rest) == (if r.Delivered? then r.octets else "") + Octets(rest)
  {
    assert ([r] + rest)[1..] == rest;
  }

  /** Why the loop ended: the room is used up, or the last reply could not be retried, or the last six replies
      all delivered nothing (tries of them before these). */
  ghost predicate Ends(log: seq<ReadReply>, count: nat, tries: nat) {
    && log != []
    && (|Octets(log)| == count
        || log[|log| - 1] == ReadFailed(OtherErrno)
        || (|log| + tries >= 6
            && forall i :: 0 <= i < |log| && |log| - 6 <= i ==>
                 log[i] in {EndOfFile, ReadFailed(EAGAIN), ReadFailed(EINTR)}))
  }

  lemma EndsLater(r: ReadReply, rest: seq<ReadReply>, count: nat, left: nat, tries: nat, before: nat)
    requires Ends(rest, left, tries)
    requires if r.Delivered? then tries == 0 && count == left + |r.octets|
             else Retryable(r) && tries == before + 1 && count == left
    ensures Ends([r] + rest, count, before)
  {
    var log := [r] + rest;
    assert log[1..] == rest;
    assert forall i :: 1 <= i < |log| ==> log[i] == rest[i - 1];
    assert log[|log| - 1] == rest[|rest| - 1];
    assert Octets(log) == (if r.Delivered? then r.octets else "") + Octets(rest);
    hide Octets;
  }

  lemma {:induction false} LogEnds(kernel: Kernel, k: nat, count: nat, tries: nat)
    requires Honest(kernel) && tries <= MAX_TRIES && count > 0
    ensures Ends(Log(kernel, k, count, tries), count, tries)
    decreases count, MAX_TRIES - tries
  {
    hide Ends;
    var r := kernel(k, count);
    if r.Delivered? {
      var left := count - |r.octets|;
      if left > 0 {
        LogEnds(kernel, k + 1, left, 0);
        EndsLater(r, Log(kernel, k + 1, left, 0), count, left, 0, tries);
      } else {
        assert Log(kernel, k, count, tries) == [r];
        EndsAtOnce(r, count, tries);
      }
    } else if Retryable(r) && tries < MAX_TRIES {
      LogEnds(kernel, k + 1, count, tries + 1);
      EndsLater(r, Log(kernel, k + 1, count, tries + 1), count, count, tries + 1, tries);
    } else {
      EndsAtOnce(r, count, tries);
    }
  }

  lemma EndsAtOnce(r: ReadReply, count: nat, tries: nat)
    requires if r.Delivered? then |r.octets| == count else Retryable(r) ==> tries >= MAX_TRIES
    ensures Ends([r], count, tries)
  {
    assert [r][1..] == [];
    RetriedExactly(r);
  }

  method ReadAll(kernel: Kernel, buf: array<char>) returns (ret: int, ghost log: seq<ReadReply>)
    requires Honest(kernel)
    modifies buf
    ensures log == Log(kernel, 0, buf.Length, 0) && |Octets(log)| <= buf.Length
    ensures buf[..] == Octets(log) + Copies('\0', buf.Length - |Octets(log)|)
    ensures ret == if buf.Length > 0 && Octets(log) == "" then -1 else |Octets(log)|
    ensures |log| <= 6 * buf.Length
  {
    LogFits(kernel, 0, buf.Length, 0);
    CallBound(kernel, 0, buf.Length, 0);
    hide Log, Octets;
    Clear(buf);
    var c, gaveUp;
    c, gaveUp, log := ReadLoop(kernel, buf);
    if gaveUp {
      ret := if c != 0 then c else -1;
    } else {
      ret := c;
    }
  }

  // the while loop of read_all
  method ReadLoop(kernel: Kernel, buf: array<char>) returns (c: nat, gaveUp: bool, ghost log: seq<ReadReply>)
    requires Honest(kernel) && buf[..] == Copies('\0', buf.Length)
    modifies buf
    ensures log == Log(kernel, 0, buf.Length, 0) && c == |Octets(log)| <= buf.Length
    ensures buf[..] == Octets(log) + Copies('\0', buf.Length - c)
    ensures !gaveUp ==> c == buf.Length
    ensures gaveUp ==> buf.Length > 0
  {
    hide Progress, Log, Octets;
    ghost var all, got := Log(kernel, 0, buf.Length, 0), "";
    log := [];
    c := 0;
    var tries, count, call := 0, buf.Length, 0;
    ProgressStart(kernel, count);
    while count > 0
      invariant 0 <= count <= buf.Length && c == buf.Length - count == |got| && 0 <= tries <= MAX_TRIES
      invariant Progress(kernel, all, log, got, call, count, tries)
      invariant buf[..] == got + Copies('\0', count)
      decreases count, MAX_TRIES - tries
    {
      var r := kernel(call, count);
      ProgressStep(kernel, all, log, got, call, count, tries);
      call := call + 1;
      log := log + [r];
      if !r.Delivered? {
        if Retryable(r) && tries < MAX_TRIES {
          tries := tries + 1;
          continue;
        }
        gaveUp := true;
        return;
      }
      tries := 0;
      Store(buf, c, r.octets, got);
      got := got + r.octets;
      count := count - |r.octets|;
      c := c + |r.octets|;
    }
    ProgressEnd(kernel, all, log, got, call, tries);
    gaveUp := false;
  }

  /** The loop has had the replies in log, which delivered got, and will end with the replies in all. */
  ghost predicate Progress(kernel: Kernel, all: seq<ReadReply>, log: seq<ReadReply>, got: string,
                           call: nat, count: nat, tries: nat)
  {
    Honest(kernel) && tries <= MAX_TRIES && all == log + Log(kernel, call, count, tries) && got == Octets(log)
  }

  lemma ProgressStart(kernel: Kernel, count: nat)
    requires Honest(kernel)
    ensures Progress(kernel, Log(kernel, 0, count, 0), [], "", 0, count, 0)
  {
  }

  lemma ProgressStep(kernel: Kernel, all: seq<ReadReply>, log: seq<ReadReply>, got: string,
                     call: nat, count: nat, tries: nat)
    requires Progress(kernel, all, log, got, call, count, tries) && count > 0
    ensures var r := kernel(call, count);
            if r.Delivered? then
              1 <= |r.octets| <= count
              && Progress(kernel, all, log + [r], got + r.octets, call + 1, count - |r.octets|, 0)
            else if Retryable(r) && tries < MAX_TRIES then
              Progress(kernel, all, log + [r], got, call + 1, count, tries + 1)
            else all == log + [r] && got == Octets(log + [r])
  {
    LogStep(kernel, call, count, tries, log);
    hide Log;
    OctetsAppend(log, kernel(call, count));
    hide Octets;
    assert log + [kernel(call, count)] + [] == log + [kernel(call, count)];
  }

  lemma ProgressEnd(kernel: Kernel, all: seq<ReadReply>, log: seq<ReadReply>, got: string, call: nat, tries: nat)
    requires Progress(kernel, all, log, got, call, 0, tries)
    ensures all == log && got == Octets(log)
  {
  }

  /** The replies behind the next one. */
  ghost function After(kernel: Kernel, k: nat, count: nat, tries: nat): seq<ReadReply>
    requires Honest(kernel) && tries <= MAX_TRIES && count > 0
  {
    var r := kernel(k, count);
    if r.Delivered? then Log(kernel, k + 1, count - |r.octets|, 0)
    else if Retryable(r) && tries < MAX_TRIES then Log(kernel, k + 1, count, tries + 1)
    else []
  }

  lemma LogStep(kernel: Kernel, k: nat, count: nat, tries: nat, before: seq<ReadReply>)
    requires Honest(kernel) && tries <= MAX_TRIES && count > 0
    ensures before + Log(kernel, k, count, tries) == before + [kernel(k, count)] + After(kernel, k, count, tries)
  {
    assert Log(kernel, k, count, tries) == [kernel(k, count)] + After(kernel, k, count, tries);
    hide Log, After;
    Reassociate(before, [kernel(k, count)], After(kernel, k, count, tries));
  }

  // memset(buf, 0, count)
  method Clear(buf: array<char>)
    modifies buf
    ensures buf[..] == Copies('\0', buf.Length)
  {
    for i := 0 to buf.Length
      invariant forall j :: 0 <= j < i ==> buf[j] == '\0'
    {
      buf[i] := '\0';
    }
  }

  // the part of read(2) that fills the buffer, behind what is there already
  method Store(buf: array<char>, at: nat, octets: string, ghost got: string)
    requires at == |got| && at + |octets| <= buf.Length && buf[..] == got + Copies('\0', buf.Length - at)
    modifies buf
    ensures buf[..] == got + octets + Copies('\0', buf.Length - |got| - |octets|)
  {
    for i := 0 to |octets|
      invariant forall j :: 0 <= j < buf.Length ==> buf[j] == if at <= j < at + i then octets[j - at] else old(buf[j])
    {
      buf[at + i] := octets[i];
    }
  }

  /** The error return, exactly: there was room, and nothing was delivered. */
  lemma NothingDelivered(kernel: Kernel, count: nat)
    requires Honest(kernel)
    ensures Octets(Log(kernel, 0, count, 0)) == "" <==>
              forall i :: 0 <= i < |Log(kernel, 0, count, 0)| ==> !Log(kernel, 0, count, 0)[i].Delivered?
  {
    NothingIn(kernel, 0, count, 0);
  }

  lemma OneMoreEmpty(r: ReadReply, rest: seq<ReadReply>)
    requires !r.Delivered?
    ensures Octets([r] + rest) == Octets(rest)
    ensures (forall i :: 0 <= i < |rest| ==> !rest[i].Delivered?)
       <==> forall i :: 0 <= i < |[r] + rest| ==> !([r] + rest)[i].Delivered?
  {
    assert ([r] + rest)[1..] == rest;
    assert forall i :: 0 <= i < |rest| ==> rest[i] == ([r] + rest)[i + 1];
  }

  lemma {:induction false} NothingIn(kernel: Kernel, k: nat, count: nat, tries: nat)
    requires Honest(kernel) && tries <= MAX_TRIES
    ensures var log := Log(kernel, k, count, tries);
            Octets(log) == "" <==> forall i :: 0 <= i < |log| ==> !log[i].Delivered?
    decreases count, MAX_TRIES - tries
  {
    hide Octets;
    var log := Log(kernel, k, count, tries);
    if count == 0 {
      NoneDelivered([]);
    } else {
      var r := kernel(k, count);
      if r.Delivered? {
        assert log[0] == r;
        OneDelivered(log);
      } else if Retryable(r) && tries < MAX_TRIES {
        var rest := Log(kernel, k + 1, count, tries + 1);
        NothingIn(kernel, k + 1, count, tries + 1);
        assert log == [r] + rest;
        OneMoreEmpty(r, rest);
      } else {
        NoneDelivered([r]);
      }
    }
  }

  lemma NoneDelivered(log: seq<ReadReply>)
    requires |log| <= 1 && forall i :: 0 <= i < |log| ==> !log[i].Delivered?
    ensures Octets(log) == ""
  {
  }

  lemma OneDelivered(log: seq<ReadReply>)
    requires log != [] && log[0].Delivered? && log[0].octets != ""
    ensures Octets(log) != ""
  {
  }

  // ----- write_all -----

  /** tmp > 0 octets accepted, or not (tmp <= 0) with errno. */
  datatype WriteReply = Accepted(n: nat) | WriteFailed(errno: Errno)

  datatype WriteResult = Done | Error | Retrying

  /** What write_all has come to after the given replies: its result, or that it would call again, and how many
      octets went out.  A loop that only meets EAGAIN and EINTR never ends. */
  function Written(replies: seq<WriteReply>, count: nat): (r: (WriteResult, nat))
    ensures r.1 <= count
    ensures r.0 == Done <==> r.1 == count
    decreases |replies|
  {
    if count == 0 then (Done, 0)
    else if replies == [] then (Retrying, 0)
    else
      match replies[0]
      case Accepted(n) =>
        if 1 <= n <= count then
          var r := Written(replies[1..], count - n);
          (r.0, n + r.1)
        else (Error, 0)
      case WriteFailed(errno) => if errno == OtherErrno then (Error, 0) else Written(replies[1..], count)
  }

  /** Each reply accepts at most what was offered to its call. */
  ghost predicate Fair(replies: seq<WriteReply>, count: nat)
    decreases |replies|
  {
    replies != [] && count > 0 ==>
      match replies[0]
      case Accepted(n) => 1 <= n <= count && Fair(replies[1..], count - n)
      case WriteFailed(_) => Fair(replies[1..], count)
  }

  /** The octets that some replies accept. */
  function Total(replies: seq<WriteReply>): nat {
    if replies == [] then 0
    else (match replies[0] case Accepted(n) => n case WriteFailed(_) => 0) + Total(replies[1..])
  }

  /** EAGAIN and EINTR only cost a call.  While no other error occurs, the loop is done once all octets are accepted,
      and calls again before that; another error ends it with the octets accepted so far. */
  lemma {:induction false} WrittenExactly(replies: seq<WriteReply>, rest: seq<WriteReply>, count: nat)
    requires forall i :: 0 <= i < |replies| ==> replies[i] != WriteFailed(OtherErrno)
    requires Fair(replies, count) && Total(replies) <= count
    ensures Total(replies) == count ==> Written(replies + rest, count) == (Done, count)
    ensures Total(replies) < count && rest == [] ==> Written(replies + rest, count) == (Retrying, Total(replies))
    ensures Total(replies) < count && rest != [] && rest[0] == WriteFailed(OtherErrno) ==>
              Written(replies + rest, count) == (Error, Total(replies))
    decreases |replies|
  {
    if replies == [] {
      assert replies + rest == rest;
    } else if count > 0 {
      assert (replies + rest)[1..] == replies[1..] + rest;
      WrittenExactly(replies[1..], rest, match replies[0] case Accepted(n) => count - n case WriteFailed(_) => count);
    }
  }

  /** The octets sent are always a prefix of the buffer, and the whole of it exactly when the result is success. */
  method WriteAll(replies: seq<WriteReply>, buf: string) returns (result: WriteResult, sent: string)
    requires Fair(replies, |buf|)
    ensures result == Written(replies, |buf|).0
    ensures sent == buf[..Written(replies, |buf|).1]
    ensures result == Done <==> sent == buf
  {
    sent := "";
    var rest, i := buf, 0;
    while rest != ""
      invariant 0 <= i <= |replies| && sent + rest == buf
      invariant Fair(replies[i..], |rest|)
      invariant Written(replies, |buf|) == (Written(replies[i..], |rest|).0, |sent| + Written(replies[i..], |rest|).1)
      decreases |replies| - i
    {
      if i == |replies| {
        result := Retrying;
        return;
      }
      assert replies[i..][1..] == replies[i + 1..];
      match replies[i] {
        case Accepted(n) =>
          sent := sent + rest[..n];
          rest := rest[n..];
        case WriteFailed(errno) =>
          if errno == OtherErrno {
            result := Error;
            return;
          }
      }
      i := i + 1;
    }
    result := Done;
  }
}
