/** The two passes of the module configuration loader over the parser's events: the first counts the arguments,
    the second fills as many slots with the argument texts. */
module ModuleConfig {
  import opened Splitting

  const MAX_STR_LEN := 256

  /** The attributes of an element, as the parser lists them: name, value, name, value and so on. */
  type Attributes = a: seq<string> | |a| % 2 == 0

  datatype Event = Start(name: string, atts: Attributes) | Chars(text: string) | End(name: string)

  // ----- the counting pass -----

  datatype Count = Count(depth: int, nameTag: bool, moduTag: bool, argumentCount: nat,
                         moduleName: string, pathName: string)

  /** The module name and path after the attributes from i on have been looked at: the value of a name attribute, and
      the value of the attribute behind it. */
  function Named(names: (string, string), atts: Attributes, i: nat): (string, string)
    decreases |atts| - i
  {
    if i >= |atts| then names
    else Named(if atts[i] == "name" && i + 3 < |atts| then (atts[i + 1], atts[i + 3]) else names, atts, i + 2)
  }

  /** The last attribute is a name attribute: what is taken for the path behind it is a word behind the list. */
  predicate EndsWithName(atts: Attributes) {
    |atts| >= 2 && atts[|atts| - 2] == "name"
  }

  /** Where the last name attribute stands. */
  ghost predicate LastName(atts: Attributes, i: nat) {
    i < |atts| && i % 2 == 0 && atts[i] == "name" && forall k :: i < k < |atts| && k % 2 == 0 ==> atts[k] != "name"
  }

  /** The last name attribute decides: its value is the module's name, and the value of the attribute behind it -
      whatever that is called - the path. */
  lemma {:induction false} LastNameDecides(names: (string, string), atts: Attributes, i: nat, at: nat)
    requires i % 2 == 0 && i <= at && LastName(atts, at) && !EndsWithName(atts)
    ensures at + 3 < |atts| && Named(names, atts, i) == (atts[at + 1], atts[at + 3])
    decreases |atts| - i
  {
    var names' := if atts[i] == "name" && i + 3 < |atts| then (atts[i + 1], atts[i + 3]) else names;
    if i < at {
      LastNameDecides(names', atts, i + 2, at);
    } else {
      NoNameLeft(names', atts, i + 2);
    }
  }

  lemma {:induction false} NoNameLeft(names: (string, string), atts: Attributes, i: nat)
    requires i % 2 == 0 && forall k :: i <= k < |atts| && k % 2 == 0 ==> atts[k] != "name"
    ensures Named(names, atts, i) == names
    decreases |atts| - i
  {
    if i < |atts| {
      NoNameLeft(names, atts, i + 2);
    }
  }

  function CountStep(c: Count, e: Event): Count {
    match e
    case Start(name, atts) =>
      var names := if c.nameTag then Named((c.moduleName, c.pathName), atts, 0) else (c.moduleName, c.pathName);
      Count(c.depth + 1, c.nameTag || name == "modules", c.moduTag || (c.nameTag && name == "module"),
            c.argumentCount + if c.moduTag then 1 else 0, names.0, names.1)
    case Chars(_) => c
    case End(name) => c.(depth := c.depth - 1, moduTag := c.moduTag && !(c.nameTag && name == "module"))
  }

  function CountRun(c: Count, events: seq<Event>): Count {
    if events == [] then c else CountStep(CountRun(c, events[..|events| - 1]), events[|events| - 1])
  }

  const FRESH: Count := Count(0, false, false, 0, "", "")

  /** The counting pass does what C leaves undefined: it assigns the word behind an attribute list to the path, which
      reads through it. */
  predicate CountFaults(c: Count, events: seq<Event>) {
    events != [] &&
    var init, e := events[..|events| - 1], events[|events| - 1];
    CountFaults(c, init) || (e.Start? && CountRun(c, init).nameTag && EndsWithName(e.atts))
  }

  // ----- the module's name and path, on every event sequence -----

  /** A modules tag has been opened. */
  ghost predicate Opened(events: seq<Event>) {
    exists j :: 0 <= j < |events| && events[j].Start? && events[j].name == "modules"
  }

  /** The attributes of all start tags behind the first modules tag, in order. */
  ghost function AttsBehind(events: seq<Event>): Attributes {
    if events == [] then []
    else
      var init, e := events[..|events| - 1], events[|events| - 1];
      AttsBehind(init) + if e.Start? && Opened(init) then e.atts else []
  }

  lemma {:induction false} NameTagExactly(events: seq<Event>)
    ensures CountRun(FRESH, events).nameTag <==> Opened(events)
    decreases |events|
  {
    hide Named;
    if events != [] {
      var init, e := events[..|events| - 1], events[|events| - 1];
      NameTagExactly(init);
      assert events == init + [e];
    }
  }

  lemma {:induction false} NamedAppend(names: (string, string), a: Attributes, b: Attributes, i: nat)
    requires i % 2 == 0 && i <= |a| && !EndsWithName(a)
    ensures Named(names, a + b, i) == Named(Named(names, a, i), b, 0)
    decreases |a| - i
  {
    if i == |a| {
      NamedBehind(names, a, b, 0);
    } else {
      NamedAppend(if a[i] == "name" && i + 3 < |a| then (a[i + 1], a[i + 3]) else names, a, b, i + 2);
    }
  }

  lemma {:induction false} NamedBehind(names: (string, string), a: Attributes, b: Attributes, i: nat)
    requires i % 2 == 0 && i <= |b|
    ensures Named(names, a + b, |a| + i) == Named(names, b, i)
    decreases |b| - i
  {
    if i < |b| {
      NamedBehind(if b[i] == "name" && i + 3 < |b| then (b[i + 1], b[i + 3]) else names, a, b, i + 2);
    }
  }

  lemma {:induction false} NamesAreRead(events: seq<Event>)
    requires !CountFaults(FRESH, events)
    ensures var c := CountRun(FRESH, events);
            (c.moduleName, c.pathName) == Named(("", ""), AttsBehind(events), 0)
    ensures !EndsWithName(AttsBehind(events))
    decreases |events|
  {
    hide Named, EndsWithName, Opened;
    assert Named(("", ""), [], 0) == ("", "") && !EndsWithName([]) by { NothingNamed(); }
    if events != [] {
      var init, e := events[..|events| - 1], events[|events| - 1];
      NamesAreRead(init);
      NameTagExactly(init);
      if e.Start? && Opened(init) {
        NamedAppend(("", ""), AttsBehind(init), e.atts, 0);
        EndOfBoth(AttsBehind(init), e.atts);
      } else {
        assert AttsBehind(init) + [] == AttsBehind(init);
      }
    }
  }

  lemma NothingNamed()
    ensures Named(("", ""), [], 0) == ("", "") && !EndsWithName([])
  {
  }

  lemma EndOfBoth(a: Attributes, b: Attributes)
    requires !EndsWithName(a) && !EndsWithName(b)
    ensures !EndsWithName(a + b)
  {
  }

  /** Whatever the events: when the counting pass comes to its end, the last name attribute behind the modules tag has
      given the module its name, and the attribute behind that one the path; without a name attribute both are empty. */
  lemma ModuleIsNamed(events: seq<Event>, at: nat)
    requires !CountFaults(FRESH, events)
    ensures var c, atts := CountRun(FRESH, events), AttsBehind(events);
            && (LastName(atts, at) ==> at + 3 < |atts| && c.moduleName == atts[at + 1] && c.pathName == atts[at + 3])
            && ((forall k :: 0 <= k < |atts| && k % 2 == 0 ==> atts[k] != "name") ==>
                  c.moduleName == "" && c.pathName == "")
  {
    hide CountRun, CountFaults, Named;
    NamesAreRead(events);
    var atts := AttsBehind(events);
    if LastName(atts, at) {
      LastNameDecides(("", ""), atts, 0, at);
    }
    if forall k :: 0 <= k < |atts| && k % 2 == 0 ==> atts[k] != "name" {
      NoNameLeft(("", ""), atts, 0);
    }
  }

  // ----- the filling pass -----

  datatype Fill = Fill(depth: int, paramIndex: nat, slots: seq<string>)

  /** A zeroed slot after strncpy of a text: the text up to its first NUL, then NULs.  A text that fills the slot is
      not terminated; of a longer one the slot holds the first 256 octets, and the rest runs over its end. */
  function Slot(text: string): (r: string)
    ensures |r| == MAX_STR_LEN
    ensures '\0' !in text && |text| < MAX_STR_LEN ==> text <= r && r[|text|] == '\0'
    ensures '\0' !in text && |text| >= MAX_STR_LEN ==> r == text[..MAX_STR_LEN]
  {
    var t := Until(text, '\0');
    if |t| < MAX_STR_LEN then t + Copies('\0', MAX_STR_LEN - |t|) else t[..MAX_STR_LEN]
  }

  function FillStep(f: Fill, e: Event): Fill {
    match e
    case Start(_, _) => f.(depth := f.depth + 1)
    case Chars(text) =>
      if f.depth == 3 && |text| != 0 && f.paramIndex < |f.slots| then
        f.(slots := f.slots[f.paramIndex := Slot(text)], paramIndex := f.paramIndex + 1)
      else f
    case End(_) => f.(depth := f.depth - 1)
  }

  /** A text that gets a slot and is longer than that. */
  predicate Overflows(f: Fill, e: Event) {
    e.Chars? && f.depth == 3 && f.paramIndex < |f.slots| && |e.text| > MAX_STR_LEN
  }

  function FillRun(f: Fill, events: seq<Event>): Fill {
    if events == [] then f else FillStep(FillRun(f, events[..|events| - 1]), events[|events| - 1])
  }

  function Empty(n: nat): (r: seq<string>)
    ensures |r| == n && forall i :: 0 <= i < n ==> r[i] == Slot("")
  {
    Copies(Slot(""), n)
  }

  // ----- what the passes compute, on every event sequence -----

  function Level(depth: int, events: seq<Event>): int {
    if events == [] then depth
    else
      match events[|events| - 1]
      case Start(_, _) => Level(depth, events[..|events| - 1]) + 1
      case Chars(_) => Level(depth, events[..|events| - 1])
      case End(_) => Level(depth, events[..|events| - 1]) - 1
  }

  /** The non-empty texts at depth 3, in order. */
  function Chunks(depth: int, events: seq<Event>): seq<string> {
    if events == [] then []
    else
      var init, e := events[..|events| - 1], events[|events| - 1];
      Chunks(depth, init) + if e.Chars? && e.text != "" && Level(depth, init) == 3 then [e.text] else []
  }

  /** On every event sequence the filling pass stores the chunks in order, one to a slot, until the slots or the
      chunks run out; the rest of the slots stays as it is. */
  lemma {:induction false} FillExactly(depth: int, slots: seq<string>, events: seq<Event>)
    ensures var f, chunks, n := FillRun(Fill(depth, 0, slots), events), Chunks(depth, events), |slots|;
            && f.depth == Level(depth, events)
            && f.paramIndex == (if |chunks| <= n then |chunks| else n) && |f.slots| == n
            && (forall i :: 0 <= i < |chunks| ==> chunks[i] != "")
            && (forall i :: 0 <= i < f.paramIndex ==> f.slots[i] == Slot(chunks[i]))
            && (forall i :: f.paramIndex <= i < n ==> f.slots[i] == slots[i])
    decreases |events|
  {
    if events != [] {
      FillExactly(depth, slots, events[..|events| - 1]);
    }
  }

  /** The texts that get a slot are no longer than a slot. */
  ghost predicate StoredFit(depth: int, n: nat, events: seq<Event>) {
    forall i :: 0 <= i < |Chunks(depth, events)| && i < n ==> |Chunks(depth, events)[i]| <= MAX_STR_LEN
  }

  lemma {:induction false} ChunksGrow(depth: int, events: seq<Event>, i: nat)
    requires i <= |events|
    ensures Chunks(depth, events[..i]) <= Chunks(depth, events)
    decreases |events|
  {
    if i < |events| {
      ChunksGrow(depth, events[..|events| - 1], i);
      assert events[..|events| - 1][..i] == events[..i];
    } else {
      assert events[..i] == events;
    }
  }

  lemma StoredFitBefore(depth: int, n: nat, events: seq<Event>, i: nat)
    requires i <= |events|
    ensures StoredFit(depth, n, events) ==> StoredFit(depth, n, events[..i])
  {
    ChunksGrow(depth, events, i);
    var part, whole := Chunks(depth, events[..i]), Chunks(depth, events);
    assert forall k :: 0 <= k < |part| ==> part[k] == whole[k];
  }

  lemma StoredFitNext(depth: int, slots: seq<string>, events: seq<Event>, i: nat)
    requires i < |events|
    ensures var f, n := FillRun(Fill(depth, 0, slots), events[..i]), |slots|;
            StoredFit(depth, n, events[..i + 1]) <==> StoredFit(depth, n, events[..i]) && !Overflows(f, events[i])
  {
    var f, n := FillRun(Fill(depth, 0, slots), events[..i]), |slots|;
    FillExactly(depth, slots, events[..i]);
    assert events[..i + 1][..i] == events[..i];
    var before, after := Chunks(depth, events[..i]), Chunks(depth, events[..i + 1]);
    assert forall k :: 0 <= k < |before| ==> after[k] == before[k];
    if Overflows(f, events[i]) {
      assert after[|before|] == events[i].text;
    }
  }

  lemma {:induction false} CountFaultsLater(c: Count, events: seq<Event>, i: nat)
    requires i <= |events| && CountFaults(c, events[..i])
    ensures CountFaults(c, events)
    decreases |events|
  {
    if i < |events| {
      assert events[..|events| - 1][..i] == events[..i];
      CountFaultsLater(c, events[..|events| - 1], i);
    } else {
      assert events[..i] == events;
    }
  }

  /** What keeps the loader from coming to its end: a start tag that the counting pass reads past, or a text that does
      not fit into the slot it gets. */
  ghost predicate LoadFaults(events: seq<Event>) {
    var c := CountRun(FRESH, events);
    CountFaults(FRESH, events) || !StoredFit(c.depth, c.argumentCount, events)
  }

  // ----- the loader -----

  class Loader {
    var depth: int
    var paramIndex: nat
    var nameTag: bool
    var moduTag: bool
    var argumentCount: nat
    var moduleName: string
    var pathName: string
    var arguments: seq<string>

    function Counted(): Count
      reads this
    {
      Count(depth, nameTag, moduTag, argumentCount, moduleName, pathName)
    }

    function Filled(): Fill
      reads this
    {
      Fill(depth, paramIndex, arguments)
    }

    constructor ()
      ensures Counted() == FRESH && paramIndex == 0
    {
      depth, paramIndex, nameTag, moduTag, argumentCount := 0, 0, false, false, 0;
      moduleName, pathName, arguments := "", "", [];
    }

    method BaseInfoStart(name: string, atts: Attributes) returns (faulted: bool)
      modifies this
      ensures faulted == (old(nameTag) && EndsWithName(atts))
      ensures !faulted ==> Counted() == CountStep(old(Counted()), Start(name, atts)) && paramIndex == old(paramIndex)
    {
      depth := depth + 1;
      if moduTag {
        argumentCount := argumentCount + 1;
      }
      if nameTag {
        if name == "module" {
          moduTag := true;
        }
      }
      ghost var before := Counted();
      var i := 0;
      while nameTag && i < |atts|
        invariant 0 <= i <= |atts| && i % 2 == 0
        invariant nameTag ==>
                    Named((moduleName, pathName), atts, i) == Named((before.moduleName, before.pathName), atts, 0)
        invariant nameTag && i == |atts| ==> !EndsWithName(atts)
        invariant !nameTag ==> Counted() == before
        invariant Counted() == before.(moduleName := moduleName, pathName := pathName) && paramIndex == old(paramIndex)
        decreases |atts| - i
      {
        if atts[i] == "name" {
          moduleName := atts[i + 1];
          if i + 3 >= |atts| {
            return true;
          }
          pathName := atts[i + 3];
        }
        i := i + 2;
      }
      if name == "modules" {
        nameTag := true;
      }
      faulted := false;
    }

    method BaseInfoEnd(name: string)
      modifies this
      ensures Counted() == CountStep(old(Counted()), End(name))
      ensures paramIndex == old(paramIndex)
    {
      if nameTag {
        if name == "module" {
          moduTag := false;
        }
      }
      depth := depth - 1;
    }

    /** faulted: the text is copied over the end of its slot. */
    method ElementCb(text: string) returns (faulted: bool)
      requires argumentCount == |arguments|
      modifies this
      ensures faulted == Overflows(old(Filled()), Chars(text))
      ensures !faulted ==> Filled() == FillStep(old(Filled()), Chars(text))
      ensures argumentCount == old(argumentCount) && moduleName == old(moduleName) && pathName == old(pathName)
    {
      faulted := false;
      if depth == 3 && |text| != 0 && paramIndex < argumentCount {
        if |text| > MAX_STR_LEN {
          return true;
        }
        arguments := arguments[paramIndex := Slot(text)];
        paramIndex := paramIndex + 1;
      }
    }

    // get_module_base_info
    method CountPass(events: seq<Event>) returns (faulted: bool)
      requires Counted() == FRESH && paramIndex == 0
      modifies this
      ensures faulted == CountFaults(FRESH, events)
      ensures !faulted ==> Counted() == CountRun(FRESH, events) && paramIndex == 0
    {
      faulted := false;
      for i := 0 to |events|
        invariant Counted() == CountRun(FRESH, events[..i]) && paramIndex == 0
        invariant !CountFaults(FRESH, events[..i])
      {
        assert events[..i + 1][..i] == events[..i];
        match events[i] {
          case Start(name, atts) =>
            faulted := BaseInfoStart(name, atts);
            if faulted {
              CountFaultsLater(FRESH, events, i + 1);
              return;
            }
          case Chars(_) =>
          case End(name) => BaseInfoEnd(name);
        }
      }
      assert events[..|events|] == events;
      faulted := false;
    }

    // get_params
    method FillPass(events: seq<Event>) returns (faulted: bool)
      requires paramIndex == 0 && argumentCount == |arguments|
      modifies this
      ensures faulted == !StoredFit(old(depth), argumentCount, events)
      ensures !faulted ==> Filled() == FillRun(old(Filled()), events)
      ensures argumentCount == old(argumentCount) && moduleName == old(moduleName) && pathName == old(pathName)
    {
      faulted := false;
      ghost var slots := arguments;
      for i := 0 to |events|
        invariant Filled() == FillRun(old(Filled()), events[..i])
        invariant argumentCount == old(argumentCount) == |arguments|
        invariant moduleName == old(moduleName) && pathName == old(pathName)
        invariant StoredFit(old(depth), argumentCount, events[..i])
      {
        assert events[..i + 1][..i] == events[..i];
        StoredFitNext(old(depth), slots, events, i);
        match events[i] {
          case Start(_, _) => depth := depth + 1;
          case Chars(text) =>
            faulted := ElementCb(text);
            if faulted {
              StoredFitBefore(old(depth), argumentCount, events, i + 1);
              return;
            }
          case End(_) => depth := depth - 1;
        }
      }
      assert events[..|events|] == events;
      faulted := false;
    }

    // load_dm_setting
    method LoadDmSetting(events: seq<Event>) returns (faulted: bool)
      requires Counted() == FRESH && paramIndex == 0
      modifies this
      ensures faulted == LoadFaults(events)
      ensures var c := CountRun(FRESH, events);
              !faulted ==>
                && argumentCount == c.argumentCount && moduleName == c.moduleName && pathName == c.pathName
                && Filled() == FillRun(Fill(c.depth, 0, Empty(c.argumentCount)), events)
    {
      faulted := CountPass(events);
      if !faulted {
        arguments := Empty(argumentCount);
        faulted := FillPass(events);
      }
    }
  }

  // ----- documents: modules / module / argument -----

  datatype Argument = Argument(before: seq<string>, name: string, atts: Attributes, chunks: seq<string>)
  datatype Module = Module(before: seq<string>, atts: Attributes, arguments: seq<Argument>, after: seq<string>)
  datatype Document = Document(atts: Attributes, modules: seq<Module>, after: seq<string>)

  function Texts(ts: seq<string>): (r: seq<Event>)
    ensures |r| == |ts| && forall i :: 0 <= i < |ts| ==> r[i] == Chars(ts[i])
  {
    seq(|ts|, i requires 0 <= i < |ts| => Chars(ts[i]))
  }

  function ArgumentEvents(a: Argument): seq<Event> {
    Texts(a.before) + [Start(a.name, a.atts)] + Texts(a.chunks) + [End(a.name)]
  }

  function ArgumentsEvents(args: seq<Argument>): seq<Event> {
    if args == [] then [] else ArgumentsEvents(args[..|args| - 1]) + ArgumentEvents(args[|args| - 1])
  }

  function ModuleEvents(m: Module): seq<Event> {
    Texts(m.before) + [Start("module", m.atts)] + ArgumentsEvents(m.arguments) + Texts(m.after) + [End("module")]
  }

  function ModulesEvents(ms: seq<Module>): seq<Event> {
    if ms == [] then [] else ModulesEvents(ms[..|ms| - 1]) + ModuleEvents(ms[|ms| - 1])
  }

  function DocumentEvents(d: Document): seq<Event> {
    [Start("modules", d.atts)] + ModulesEvents(d.modules) + Texts(d.after) + [End("modules")]
  }

  function AllArguments(ms: seq<Module>): seq<Argument> {
    if ms == [] then [] else AllArguments(ms[..|ms| - 1]) + ms[|ms| - 1].arguments
  }

  function NonEmpty(ts: seq<string>): (r: seq<string>)
    ensures forall i :: 0 <= i < |r| ==> r[i] != ""
  {
    if ts == [] then []
    else NonEmpty(ts[..|ts| - 1]) + if ts[|ts| - 1] != "" then [ts[|ts| - 1]] else []
  }

  function AllChunks(args: seq<Argument>): (r: seq<string>)
    ensures forall i :: 0 <= i < |r| ==> r[i] != ""
  {
    if args == [] then [] else AllChunks(args[..|args| - 1]) + NonEmpty(args[|args| - 1].chunks)
  }

  /** The text of an argument: its chunks together. */
  function Concat(ts: seq<string>): string {
    if ts == [] then "" else Concat(ts[..|ts| - 1]) + ts[|ts| - 1]
  }

  /** No argument element is itself called "module", and no text holds a NUL. */
  predicate ValidArgument(a: Argument) {
    a.name != "module" && forall i :: 0 <= i < |a.chunks| ==> '\0' !in a.chunks[i]
  }

  predicate ValidArguments(args: seq<Argument>) {
    forall i :: 0 <= i < |args| ==> ValidArgument(args[i])
  }

  // ----- the passes over a document -----

  lemma {:induction false} CountAppend(c: Count, a: seq<Event>, b: seq<Event>)
    ensures CountRun(c, a + b) == CountRun(CountRun(c, a), b)
    ensures CountFaults(c, a + b) <==> CountFaults(c, a) || CountFaults(CountRun(c, a), b)
    decreases |b|
  {
    if b == [] {
      assert a + b == a;
    } else {
      assert (a + b)[..|a + b| - 1] == a + b[..|b| - 1];
      CountAppend(c, a, b[..|b| - 1]);
    }
  }

  lemma {:induction false} ChunksAppend(depth: int, a: seq<Event>, b: seq<Event>)
    ensures Level(depth, a + b) == Level(Level(depth, a), b)
    ensures Chunks(depth, a + b) == Chunks(depth, a) + Chunks(Level(depth, a), b)
    decreases |b|
  {
    if b == [] {
      assert a + b == a;
    } else {
      assert (a + b)[..|a + b| - 1] == a + b[..|b| - 1];
      ChunksAppend(depth, a, b[..|b| - 1]);
    }
  }

  /** Both passes over events: the counting pass goes from c to c', or faults; the filling pass goes from depth to
      depth', and meets the given chunks. */
  predicate Passes(c: Count, depth: int, events: seq<Event>, c': Count, depth': int, chunks: seq<string>,
                   faults: bool)
  {
    && CountRun(c, events) == c' && CountFaults(c, events) == faults
    && Level(depth, events) == depth' && Chunks(depth, events) == chunks
  }

  lemma PassesAppend(c: Count, depth: int, a: seq<Event>, c1: Count, depth1: int, x: seq<string>, f: bool,
                     b: seq<Event>, c2: Count, depth2: int, y: seq<string>, g: bool)
    requires Passes(c, depth, a, c1, depth1, x, f) && Passes(c1, depth1, b, c2, depth2, y, g)
    ensures Passes(c, depth, a + b, c2, depth2, x + y, f || g)
  {
    CountAppend(c, a, b);
    ChunksAppend(depth, a, b);
  }

  lemma StartPass(c: Count, depth: int, name: string, atts: Attributes)
    ensures Passes(c, depth, [Start(name, atts)], CountStep(c, Start(name, atts)), depth + 1, [],
                   c.nameTag && EndsWithName(atts))
  {
    assert [Start(name, atts)][..0] == [];
  }

  lemma EndPass(c: Count, depth: int, name: string)
    ensures Passes(c, depth, [End(name)], CountStep(c, End(name)), depth - 1, [], false)
  {
    assert [End(name)][..0] == [];
  }

  lemma {:induction false} TextsPass(c: Count, depth: int, ts: seq<string>)
    ensures Passes(c, depth, Texts(ts), c, depth, if depth == 3 then NonEmpty(ts) else [], false)
    decreases |ts|
  {
    if ts != [] {
      assert Texts(ts)[..|ts| - 1] == Texts(ts[..|ts| - 1]);
      TextsPass(c, depth, ts[..|ts| - 1]);
    }
  }

  /** An element: texts, its start, its content, more texts, its end. */
  lemma ElementPass(c: Count, depth: int, before: seq<string>, name: string, atts: Attributes,
                    content: seq<Event>, c': Count, chunks: seq<string>, faults: bool)
    requires depth != 3
    requires Passes(CountStep(c, Start(name, atts)), depth + 1, content, c', depth + 1, chunks, faults)
    ensures Passes(c, depth, Texts(before) + [Start(name, atts)] + content + [End(name)],
                   CountStep(c', End(name)), depth, chunks, (c.nameTag && EndsWithName(atts)) || faults)
  {
    hide Passes;
    var c1, f := CountStep(c, Start(name, atts)), c.nameTag && EndsWithName(atts);
    TextsPass(c, depth, before);
    StartPass(c, depth, name, atts);
    EndPass(c', depth + 1, name);
    var s1 := Texts(before) + [Start(name, atts)];
    PassesAppend(c, depth, Texts(before), c, depth, [], false, [Start(name, atts)], c1, depth + 1, [], f);
    PassesAppend(c, depth, s1, c1, depth + 1, [] + [], f, content, c', depth + 1, chunks, faults);
    PassesAppend(c, depth, s1 + content, c', depth + 1, [] + [] + chunks, f || faults,
                 [End(name)], CountStep(c', End(name)), depth, [], false);
    assert [] + [] + chunks + [] == chunks;
  }

  /** c' differs from c at most in the names, and counts n more arguments. */
  predicate Counts(c: Count, c': Count, n: nat) {
    c' == c.(argumentCount := c.argumentCount + n, moduleName := c'.moduleName, pathName := c'.pathName)
  }

  lemma ArgumentPass(c: Count, a: Argument) returns (c': Count)
    requires c.nameTag && c.moduTag && ValidArgument(a)
    ensures Counts(c, c', 1)
    ensures Passes(c, 2, ArgumentEvents(a), c', 2, NonEmpty(a.chunks), EndsWithName(a.atts))
  {
    hide NonEmpty, Named, Passes;
    var c1 := CountStep(c, Start(a.name, a.atts));
    TextsPass(c1, 3, a.chunks);
    ElementPass(c, 2, a.before, a.name, a.atts, Texts(a.chunks), c1, NonEmpty(a.chunks), false);
    c' := CountStep(c1, End(a.name));
  }

  /** Some argument's start tag ends with a name attribute. */
  predicate AnyEnds(args: seq<Argument>) {
    exists i :: 0 <= i < |args| && EndsWithName(args[i].atts)
  }

  lemma AnyEndsAppend(a: seq<Argument>, b: seq<Argument>)
    ensures AnyEnds(a + b) <==> AnyEnds(a) || AnyEnds(b)
  {
    assert forall i :: 0 <= i < |a| ==> (a + b)[i] == a[i];
    assert forall i :: 0 <= i < |b| ==> (a + b)[|a| + i] == b[i];
  }

  lemma {:induction false} ArgumentsPass(c: Count, args: seq<Argument>) returns (c': Count)
    requires c.nameTag && c.moduTag && ValidArguments(args)
    ensures Counts(c, c', |args|)
    ensures Passes(c, 2, ArgumentsEvents(args), c', 2, AllChunks(args), AnyEnds(args))
    decreases |args|
  {
    if args == [] {
      return c;
    }
    var init, a := args[..|args| - 1], args[|args| - 1];
    assert args == init + [a];
    AnyEndsAppend(init, [a]);
    assert AnyEnds([a]) <==> EndsWithName(a.atts) by { assert [a][0] == a; }
    var c1 := ArgumentsPass(c, init);
    c' := ArgumentPass(c1, a);
    hide ArgumentEvents, NonEmpty, Passes, AnyEnds, EndsWithName;
    PassesAppend(c, 2, ArgumentsEvents(init), c1, 2, AllChunks(init), AnyEnds(init),
                 ArgumentEvents(a), c', 2, NonEmpty(a.chunks), EndsWithName(a.atts));
  }

  lemma ModulePass(c: Count, m: Module) returns (c': Count)
    requires c.nameTag && !c.moduTag && ValidArguments(m.arguments)
    ensures Counts(c, c', |m.arguments|)
    ensures Passes(c, 1, ModuleEvents(m), c', 1, AllChunks(m.arguments), EndsWithName(m.atts) || AnyEnds(m.arguments))
  {
    hide AllChunks, ArgumentsEvents, Named, Passes, AnyEnds, EndsWithName;
    var c1 := CountStep(c, Start("module", m.atts));
    var c2 := ArgumentsPass(c1, m.arguments);
    TextsPass(c2, 2, m.after);
    var content, ends := ArgumentsEvents(m.arguments) + Texts(m.after), AnyEnds(m.arguments);
    PassesAppend(c1, 2, ArgumentsEvents(m.arguments), c2, 2, AllChunks(m.arguments), ends,
                 Texts(m.after), c2, 2, [], false);
    assert AllChunks(m.arguments) + [] == AllChunks(m.arguments);
    ElementPass(c, 1, m.before, "module", m.atts, content, c2, AllChunks(m.arguments), ends);
    c' := CountStep(c2, End("module"));
    assert ModuleEvents(m) == Texts(m.before) + [Start("module", m.atts)] + content + [End("module")];
  }

  lemma {:induction false} AllChunksAppend(a: seq<Argument>, b: seq<Argument>)
    ensures AllChunks(a + b) == AllChunks(a) + AllChunks(b)
    decreases |b|
  {
    if b == [] {
      assert a + b == a;
    } else {
      assert (a + b)[..|a + b| - 1] == a + b[..|b| - 1];
      AllChunksAppend(a, b[..|b| - 1]);
    }
  }

  /** Some start tag below the modules tag ends with a name attribute. */
  predicate AnyTagEnds(ms: seq<Module>) {
    exists i :: 0 <= i < |ms| && (EndsWithName(ms[i].atts) || AnyEnds(ms[i].arguments))
  }

  lemma AnyTagEndsNext(ms: seq<Module>)
    requires ms != []
    ensures var m := ms[|ms| - 1];
            AnyTagEnds(ms) <==> AnyTagEnds(ms[..|ms| - 1]) || EndsWithName(m.atts) || AnyEnds(m.arguments)
  {
    hide EndsWithName, AnyEnds;
  }

  lemma {:induction false} ModulesPass(c: Count, ms: seq<Module>) returns (c': Count)
    requires c.nameTag && !c.moduTag && forall i :: 0 <= i < |ms| ==> ValidArguments(ms[i].arguments)
    ensures Counts(c, c', |AllArguments(ms)|)
    ensures Passes(c, 1, ModulesEvents(ms), c', 1, AllChunks(AllArguments(ms)), AnyTagEnds(ms))
    decreases |ms|
  {
    if ms == [] {
      return c;
    }
    var init, m := ms[..|ms| - 1], ms[|ms| - 1];
    var c1 := ModulesPass(c, init);
    c' := ModulePass(c1, m);
    var ends := EndsWithName(m.atts) || AnyEnds(m.arguments);
    AnyTagEndsNext(ms);
    hide ModuleEvents, AllChunks, Passes, AnyEnds, AnyTagEnds, ValidArguments;
    PassesAppend(c, 1, ModulesEvents(init), c1, 1, AllChunks(AllArguments(init)), AnyTagEnds(init),
                 ModuleEvents(m), c', 1, AllChunks(m.arguments), ends);
    AllChunksAppend(AllArguments(init), m.arguments);
  }

  ghost predicate ValidDocument(d: Document) {
    forall i :: 0 <= i < |d.modules| ==> ValidArguments(d.modules[i].arguments)
  }

  /** Both passes end a document at depth 0; the first counts its arguments, and the second finds the chunks of
      exactly these. */
  lemma DocumentPass(d: Document)
    requires ValidDocument(d)
    ensures CountRun(FRESH, DocumentEvents(d)).argumentCount == |AllArguments(d.modules)|
    ensures CountRun(FRESH, DocumentEvents(d)).depth == 0 == Level(0, DocumentEvents(d))
    ensures Chunks(0, DocumentEvents(d)) == AllChunks(AllArguments(d.modules))
    ensures CountFaults(FRESH, DocumentEvents(d)) <==> AnyTagEnds(d.modules)
  {
    var c := PassDocument(d);
  }

  lemma PassDocument(d: Document) returns (c: Count)
    requires ValidDocument(d)
    ensures c.argumentCount == |AllArguments(d.modules)| && c.depth == 0
    ensures Passes(FRESH, 0, DocumentEvents(d), c, 0, AllChunks(AllArguments(d.modules)), AnyTagEnds(d.modules))
  {
    hide AllChunks, ModulesEvents, Named, Passes, AllArguments, AnyTagEnds;
    var c1 := CountStep(FRESH, Start("modules", d.atts));
    var c2 := ModulesPass(c1, d.modules);
    TextsPass(c2, 1, d.after);
    var content, chunks := ModulesEvents(d.modules) + Texts(d.after), AllChunks(AllArguments(d.modules));
    var ends := AnyTagEnds(d.modules);
    PassesAppend(c1, 1, ModulesEvents(d.modules), c2, 1, chunks, ends, Texts(d.after), c2, 1, [], false);
    assert chunks + [] == chunks;
    ElementPass(FRESH, 0, [], "modules", d.atts, content, c2, chunks, ends);
    c := CountStep(c2, End("modules"));
    assert DocumentEvents(d) == Texts([]) + [Start("modules", d.atts)] + content + [End("modules")];
  }

  /** Loading a document faults if and only if a start tag below its modules tag ends with a name attribute, or one of
      the texts that get a slot is longer than 256 octets. */
  lemma DocumentFaults(d: Document)
    requires ValidDocument(d)
    ensures var args := AllArguments(d.modules);
            LoadFaults(DocumentEvents(d))
            <==> AnyTagEnds(d.modules)
                 || exists i :: 0 <= i < |AllChunks(args)| && i < |args| && |AllChunks(args)[i]| > 256
  {
    DocumentPass(d);
    hide CountRun, CountFaults, AllChunks, AllArguments, DocumentEvents, AnyTagEnds, Chunks;
  }

  // ----- when each slot holds its argument's text -----

  /** Read as a C string the slot is the text; so it must be terminated. */
  predicate Holds(slot: string, text: string) {
    '\0' in slot && Until(slot, '\0') == text
  }

  predicate SingleChunk(a: Argument) {
    |NonEmpty(a.chunks)| == 1
  }

  lemma {:induction false} ConcatNonEmpty(ts: seq<string>)
    ensures Concat(ts) == Concat(NonEmpty(ts))
    decreases |ts|
  {
    if ts != [] {
      var init, t := ts[..|ts| - 1], ts[|ts| - 1];
      ConcatNonEmpty(init);
      if t == "" {
        assert NonEmpty(ts) == NonEmpty(init) && Concat(ts) == Concat(init);
      } else {
        assert (NonEmpty(init) + [t])[..|NonEmpty(init)|] == NonEmpty(init);
      }
    }
  }

  lemma {:induction false} ConcatLength(ts: seq<string>)
    requires forall i :: 0 <= i < |ts| ==> ts[i] != ""
    ensures |ts| == 0 ==> Concat(ts) == ""
    ensures |ts| == 1 ==> Concat(ts) == ts[0]
    ensures |ts| > 1 ==> |Concat(ts)| > |ts[0]|
    decreases |ts|
  {
    if |ts| > 0 {
      ConcatLength(ts[..|ts| - 1]);
    }
  }

  lemma SlotHolds(t: string, u: string)
    requires '\0' !in t
    ensures Holds(Slot(t), u) <==> |t| < MAX_STR_LEN && t == u
  {
    if |t| < MAX_STR_LEN {
      assert Slot(t) == t + Slot(t)[|t|..];
      assert Slot(t)[|t|] == '\0';
      UntilUnique(Slot(t), '\0', t);
    } else {
      assert forall i :: 0 <= i < MAX_STR_LEN ==> Slot(t)[i] == t[i];
    }
  }

  lemma {:induction false} NonEmptyIsText(ts: seq<string>)
    requires forall i :: 0 <= i < |ts| ==> '\0' !in ts[i]
    ensures forall i :: 0 <= i < |NonEmpty(ts)| ==> '\0' !in NonEmpty(ts)[i]
    decreases |ts|
  {
    if ts != [] {
      NonEmptyIsText(ts[..|ts| - 1]);
    }
  }

  lemma {:induction false} ChunksAreText(args: seq<Argument>)
    requires ValidArguments(args)
    ensures forall i :: 0 <= i < |AllChunks(args)| ==> '\0' !in AllChunks(args)[i]
    decreases |args|
  {
    if args != [] {
      ChunksAreText(args[..|args| - 1]);
      NonEmptyIsText(args[|args| - 1].chunks);
    }
  }

  lemma SingleText(a: Argument)
    requires SingleChunk(a)
    ensures NonEmpty(a.chunks) == [Concat(a.chunks)]
  {
    ConcatNonEmpty(a.chunks);
    ConcatLength(NonEmpty(a.chunks));
  }

  lemma TextIsSingle(a: Argument)
    requires Concat(a.chunks) != "" && (NonEmpty(a.chunks) != [] ==> NonEmpty(a.chunks)[0] == Concat(a.chunks))
    ensures SingleChunk(a)
  {
    ConcatNonEmpty(a.chunks);
    ConcatLength(NonEmpty(a.chunks));
  }

  lemma {:induction false} SingleIsAligned(args: seq<Argument>)
    requires forall i :: 0 <= i < |args| ==> SingleChunk(args[i])
    ensures |AllChunks(args)| == |args|
    ensures forall i :: 0 <= i < |args| ==> AllChunks(args)[i] == Concat(args[i].chunks)
    decreases |args|
  {
    hide Concat, NonEmpty;
    if args != [] {
      SingleIsAligned(args[..|args| - 1]);
      SingleText(args[|args| - 1]);
    }
  }

  lemma ChunksOfPrefix(args: seq<Argument>, j: nat)
    requires 1 <= j <= |args|
    ensures AllChunks(args[..j]) == AllChunks(args[..j - 1]) + NonEmpty(args[j - 1].chunks)
    ensures AllChunks(args[..j]) <= AllChunks(args)
  {
    hide AllChunks, NonEmpty;
    var pre, post := args[..j], args[j..];
    assert pre[..j - 1] == args[..j - 1];
    LastChunks(pre);
    AllChunksAppend(pre, post);
    assert pre + post == args;
  }

  lemma LastChunks(args: seq<Argument>)
    requires args != []
    ensures AllChunks(args) == AllChunks(args[..|args| - 1]) + NonEmpty(args[|args| - 1].chunks)
  {
    hide NonEmpty;
  }

  /** If the first n chunks are the texts of the n arguments, each of the first j has a single chunk. */
  lemma {:induction false} AlignedIsSingle(args: seq<Argument>, j: nat)
    requires j <= |args| <= |AllChunks(args)|
    requires forall i :: 0 <= i < |args| ==> AllChunks(args)[i] == Concat(args[i].chunks)
    ensures |AllChunks(args[..j])| == j
    ensures forall i :: 0 <= i < j ==> SingleChunk(args[i])
    decreases j
  {
    hide Concat, NonEmpty, SingleChunk;
    if j > 0 {
      var a := args[j - 1];
      AlignedIsSingle(args, j - 1);
      ChunksOfPrefix(args, j);
      hide AllChunks;
      assert NonEmpty(a.chunks) != [] ==> AllChunks(args[..j])[j - 1] == NonEmpty(a.chunks)[0];
      TextIsSingle(a);
      SingleText(a);
    } else {
      assert args[..0] == [];
    }
  }

  lemma {:induction false} ArgumentIsValid(ms: seq<Module>, i: nat)
    requires forall k :: 0 <= k < |ms| ==> ValidArguments(ms[k].arguments)
    requires i < |AllArguments(ms)|
    ensures ValidArgument(AllArguments(ms)[i])
    decreases |ms|
  {
    var init := ms[..|ms| - 1];
    if i < |AllArguments(init)| {
      ArgumentIsValid(init, i);
    }
  }

  /** What the loader leaves for a document: as many slots as arguments; and every argument was stored and every
      slot holds the text of its argument if and only if the parser delivered each argument's text as exactly one
      non-empty chunk, of less than 256 octets.  Texts anywhere else do not matter. */
  lemma PassesAgreeExactly(d: Document)
    requires ValidDocument(d)
    ensures var args, n := AllArguments(d.modules), CountRun(FRESH, DocumentEvents(d)).argumentCount;
            var f := FillRun(Fill(0, 0, Empty(n)), DocumentEvents(d));
            && n == |args| == |f.slots| && f.depth == 0
            && ((f.paramIndex == n && forall i :: 0 <= i < n ==> Holds(f.slots[i], Concat(args[i].chunks)))
                <==> forall i :: 0 <= i < n ==> SingleChunk(args[i]) && |Concat(args[i].chunks)| < 256)
  {
    var args := AllArguments(d.modules);
    var n := |args|;
    DocumentPass(d);
    FillExactly(0, Empty(n), DocumentEvents(d));
    forall i | 0 <= i < n ensures ValidArgument(args[i]) {
      ArgumentIsValid(d.modules, i);
    }
    var f := FillRun(Fill(0, 0, Empty(n)), DocumentEvents(d));
    hide FillRun, CountRun, DocumentEvents, Holds, Slot, Concat, AllChunks, SingleChunk;
    SlotsAreTexts(args, f.slots, f.paramIndex);
  }

  lemma SlotsAreTexts(args: seq<Argument>, slots: seq<string>, stored: nat)
    requires ValidArguments(args) && |slots| == |args|
    requires stored == if |AllChunks(args)| <= |args| then |AllChunks(args)| else |args|
    requires forall i :: 0 <= i < stored ==> slots[i] == Slot(AllChunks(args)[i])
    ensures (stored == |args| && forall i :: 0 <= i < |args| ==> Holds(slots[i], Concat(args[i].chunks)))
       <==> forall i :: 0 <= i < |args| ==> SingleChunk(args[i]) && |Concat(args[i].chunks)| < MAX_STR_LEN
  {
    var chunks, n := AllChunks(args), |args|;
    hide Holds, Slot, Concat, AllChunks, SingleChunk, ValidArgument;
    ChunksAreText(args);
    forall i | 0 <= i < stored
      ensures Holds(slots[i], Concat(args[i].chunks))
         <==> |chunks[i]| < MAX_STR_LEN && chunks[i] == Concat(args[i].chunks)
    {
      SlotHolds(chunks[i], Concat(args[i].chunks));
    }
    if forall i :: 0 <= i < n ==> SingleChunk(args[i]) && |Concat(args[i].chunks)| < MAX_STR_LEN {
      SingleIsAligned(args);
    }
    if stored == n && forall i :: 0 <= i < n ==> Holds(slots[i], Concat(args[i].chunks)) {
      AlignedIsSingle(args, n);
    }
  }
}
