/** The log parser of app/community-indexer.ts: it recovers, from a flat transaction log, the
    (SOL input, atoms burned) pairs of each top-level burner call. */
module BurnLogs {
  import opened Basics

  type Program = string

  const BURNER: Program := "burnLkcSaW4gHz3xXT1vnKZg3oJuH6Wc2yHcmHptyh5"

  /** A log line, as the parser's three patterns see it. */
  datatype Line =
    | Invoke(program: Program, depth: nat)
    | Logged(input: nat, burned: nat)   // a five-value sol_log_64 record, from any program
    | Finished(program: Program)        // success or failed
    | Other

  /** The parser's mutable state. `active` stands for the variable that, when defined, always
      refers to the group pushed last. */
  datatype State = State(stack: seq<Option<Program>>, groups: seq<seq<nat>>, active: bool) {
    predicate Valid() { active ==> groups != [] }
  }

  const START := State([], [], false)

  /** Assigning to the length of an array: cut, or pad with holes. */
  function Resize(stack: seq<Option<Program>>, n: nat): (r: seq<Option<Program>>)
    ensures |r| == n
  {
    if n <= |stack| then stack[..n] else stack + seq(n - |stack|, _ => None)
  }

  predicate OnTop(stack: seq<Option<Program>>, program: Program) {
    stack != [] && stack[|stack| - 1] == Some(program)
  }

  function Append(groups: seq<seq<nat>>, values: seq<nat>): seq<seq<nat>>
    requires groups != []
  {
    groups[|groups| - 1 := groups[|groups| - 1] + values]
  }

  function Step(s: State, line: Line): (s': State)
    requires s.Valid()
    ensures s'.Valid()
  {
    match line
    case Invoke(program, depth) =>
      var stack := Resize(s.stack, if depth > 0 then depth - 1 else 0) + [Some(program)];
      if depth == 1 && program == BURNER then State(stack, s.groups + [[]], true)
      else s.(stack := stack)
    case Logged(input, burned) =>
      if s.active && OnTop(s.stack, BURNER) then s.(groups := Append(s.groups, [input, burned])) else s
    case Finished(program) =>
      var stack := if OnTop(s.stack, program) then s.stack[..|s.stack| - 1] else s.stack;
      s.(stack := stack, active := s.active && !(|s.stack| == 1 && program == BURNER))
    case Other => s
  }

  function Run(s: State, lines: seq<Line>): (s': State)
    requires s.Valid()
    ensures s'.Valid()
    decreases |lines|
  {
    if lines == [] then s else Run(Step(s, lines[0]), lines[1..])
  }

  function NonEmpty(groups: seq<seq<nat>>): seq<seq<nat>> {
    if groups == [] then []
    else (if groups[0] != [] then [groups[0]] else []) + NonEmpty(groups[1..])
  }

  function Groups(logs: seq<Line>): seq<seq<nat>> {
    NonEmpty(Run(START, logs).groups)
  }

  method BurnLogGroups(logs: seq<Line>) returns (result: seq<seq<nat>>)
    ensures result == Groups(logs)
  {
    hide NonEmpty; hide Resize; hide Append;
    var stack: seq<Option<Program>> := [];
    var groups: seq<seq<nat>> := [];
    var active := false;
    for k := 0 to |logs|
      invariant active ==> groups != []
      invariant Run(State(stack, groups, active), logs[k..]) == Run(START, logs)
    {
      var line := logs[k];
      assert logs[k..][0] == line && logs[k..][1..] == logs[k + 1..];
      if line.Invoke? {
        stack := Resize(stack, if line.depth > 0 then line.depth - 1 else 0);
        stack := stack + [Some(line.program)];
        if line.depth == 1 && line.program == BURNER {
          active := true;
          groups := groups + [[]];
        }
        continue;
      }
      if active && OnTop(stack, BURNER) {
        if line.Logged? {
          groups := Append(groups, [line.input, line.burned]);
        }
      }
      if line.Finished? {
        var wasTopLevelBurn := |stack| == 1 && line.program == BURNER;
        if OnTop(stack, line.program) { stack := stack[..|stack| - 1]; }
        if wasTopLevelBurn { active := false; }
      }
    }
    result := DropEmpty(groups);
  }

  method DropEmpty(groups: seq<seq<nat>>) returns (result: seq<seq<nat>>)
    ensures result == NonEmpty(groups)
  {
    result := [];
    for k := 0 to |groups|
      invariant result + NonEmpty(groups[k..]) == NonEmpty(groups)
    {
      FirstNonEmpty(groups[k..]);
      assert groups[k..][0] == groups[k] && groups[k..][1..] == groups[k + 1..];
      if groups[k] != [] {
        assert result + ([groups[k]] + NonEmpty(groups[k + 1..])) == result + [groups[k]] + NonEmpty(groups[k + 1..]);
        result := result + [groups[k]];
      }
    }
    assert groups[|groups|..] == [] && result + [] == result;
  }

  lemma FirstNonEmpty(groups: seq<seq<nat>>)
    requires groups != []
    ensures NonEmpty(groups) == if groups[0] != [] then [groups[0]] + NonEmpty(groups[1..]) else NonEmpty(groups[1..])
  {
  }

  // ---------------------------------------------------------------- call trees

  /** What the runtime executed: a frame per invocation, its records and calls in order. */
  datatype Item = Record(input: nat, burned: nat) | Noise | Call(frame: Frame)

  datatype Frame = Frame(program: Program, body: seq<Item>)

  /** The log the runtime prints for a sequence of items inside a frame at `depth` (0 is
      outside every frame). */
  function Print(items: seq<Item>, depth: nat): seq<Line> {
    if items == [] then []
    else PrintItem(items[0], depth) + Print(items[1..], depth)
  }

  function PrintItem(item: Item, depth: nat): seq<Line> {
    match item
    case Record(input, burned) => [Logged(input, burned)]
    case Noise => [Other]
    case Call(frame) =>
      [Invoke(frame.program, depth + 1)] + Print(frame.body, depth + 1) + [Finished(frame.program)]
  }

  /** The values logged by burner frames among the items, in order. */
  function BurnerValues(items: seq<Item>, inBurner: bool): seq<nat> {
    if items == [] then []
    else ItemValues(items[0], inBurner) + BurnerValues(items[1..], inBurner)
  }

  function ItemValues(item: Item, inBurner: bool): seq<nat> {
    match item
    case Record(input, burned) => if inBurner then [input, burned] else []
    case Noise => []
    case Call(frame) => FrameValues(frame)
  }

  function FrameValues(frame: Frame): seq<nat> {
    BurnerValues(frame.body, frame.program == BURNER)
  }

  /** One group per top-level burner call. */
  function TopLevelGroups(items: seq<Item>): seq<seq<nat>> {
    if items == [] then [] else OwnGroup(items[0]) + TopLevelGroups(items[1..])
  }

  function OwnGroup(item: Item): seq<seq<nat>> {
    if item.Call? && item.frame.program == BURNER then [FrameValues(item.frame)] else []
  }

  // ---------------------------------------------------------------- parsing inverts printing

  lemma {:induction false} RunAppend(s: State, a: seq<Line>, b: seq<Line>)
    requires s.Valid()
    ensures Run(s, a + b) == Run(Run(s, a), b)
    decreases |a|
  {
    if a == [] {
      assert a + b == b;
    } else {
      assert (a + b)[0] == a[0] && (a + b)[1..] == a[1..] + b;
      RunAppend(Step(s, a[0]), a[1..], b);
    }
  }

  /** The only effect of a well-nested stretch of log inside a frame. */
  function Collect(s: State, values: seq<nat>): (s': State)
    requires s.Valid()
    ensures s'.Valid()
  {
    if s.active then s.(groups := Append(s.groups, values)) else s
  }

  lemma CollectTwice(s: State, a: seq<nat>, b: seq<nat>)
    requires s.Valid()
    ensures Collect(Collect(s, a), b) == Collect(s, a + b)
    ensures Collect(s, []) == s
  {
    if s.active {
      var g := s.groups[|s.groups| - 1];
      assert g + a + b == g + (a + b) && g + [] == g;
    }
  }

  /** Inside a frame of program p, any items leave the stack alone and add to the open group
      exactly what burner frames among them logged. */
  lemma {:induction false} RunItems(s: State, items: seq<Item>, p: Program)
    requires s.Valid() && OnTop(s.stack, p)
    ensures Run(s, Print(items, |s.stack|)) == Collect(s, BurnerValues(items, p == BURNER))
    decreases items
  {
    CollectTwice(s, [], []);
    if items == [] {
    } else {
      var depth := |s.stack|;
      RunItem(s, items[0], p);
      var mid := Collect(s, ItemValues(items[0], p == BURNER));
      RunItems(mid, items[1..], p);
      RunAppend(s, PrintItem(items[0], depth), Print(items[1..], depth));
      CollectTwice(s, ItemValues(items[0], p == BURNER), BurnerValues(items[1..], p == BURNER));
    }
  }

  lemma {:induction false} RunItem(s: State, item: Item, p: Program)
    requires s.Valid() && OnTop(s.stack, p)
    ensures Run(s, PrintItem(item, |s.stack|)) == Collect(s, ItemValues(item, p == BURNER))
    decreases item
  {
    hide Run; hide Print; hide BurnerValues; hide Append;
    CollectTwice(s, [], []);
    match item
    case Record(input, burned) => RunOne(s, Logged(input, burned));
    case Noise => RunOne(s, Other);
    case Call(frame) =>
      var depth := |s.stack|;
      var inner := s.(stack := s.stack + [Some(frame.program)]);
      assert Step(s, Invoke(frame.program, depth + 1)) == inner;
      RunItems(inner, frame.body, frame.program);
      RunFrame(s, frame, depth + 1);
      assert (s.stack + [Some(frame.program)])[..depth] == s.stack;
  }

  lemma RunOne(s: State, line: Line)
    requires s.Valid()
    ensures Run(s, [line]) == Step(s, line)
  {
    assert [line][1..] == [];
    assert Run(Step(s, line), []) == Step(s, line);
  }

  lemma RunFrame(s: State, frame: Frame, depth: nat)
    requires s.Valid() && depth > 0
    ensures Run(s, PrintItem(Call(frame), depth - 1))
         == Step(Run(Step(s, Invoke(frame.program, depth)), Print(frame.body, depth)), Finished(frame.program))
  {
    var body := Print(frame.body, depth);
    RunAppend(s, [Invoke(frame.program, depth)] + body, [Finished(frame.program)]);
    RunAppend(s, [Invoke(frame.program, depth)], body);
    RunOne(s, Invoke(frame.program, depth));
    RunOne(Run(Step(s, Invoke(frame.program, depth)), body), Finished(frame.program));
  }

  /** Outside every frame, a top-level item adds its group if it is a burner call and nothing
      otherwise; the parser is back in its resting state afterwards. */
  lemma {:induction false} RunTopLevel(groups: seq<seq<nat>>, items: seq<Item>)
    ensures Run(State([], groups, false), Print(items, 0))
         == State([], groups + TopLevelGroups(items), false)
    decreases |items|
  {
    hide OwnGroup;
    var s := State([], groups, false);
    if items == [] {
      assert groups + [] == groups;
    } else {
      RunTopItem(groups, items[0]);
      RunAppend(s, PrintItem(items[0], 0), Print(items[1..], 0));
      RunTopLevel(groups + OwnGroup(items[0]), items[1..]);
      assert groups + OwnGroup(items[0]) + TopLevelGroups(items[1..])
          == groups + (OwnGroup(items[0]) + TopLevelGroups(items[1..]));
    }
  }

  lemma RunTopItem(groups: seq<seq<nat>>, item: Item)
    ensures Run(State([], groups, false), PrintItem(item, 0))
         == State([], groups + OwnGroup(item), false)
  {
    var s := State([], groups, false);
    assert groups + [] == groups;
    match item
    case Record(input, burned) => RunOne(s, Logged(input, burned));
    case Noise => RunOne(s, Other);
    case Call(frame) =>
      var inner := Step(s, Invoke(frame.program, 1));
      assert inner.stack == [Some(frame.program)];
      RunItems(inner, frame.body, frame.program);
      RunFrame(s, frame, 1);
      if frame.program == BURNER {
        assert [] + FrameValues(frame) == FrameValues(frame);
        assert Append(groups + [[]], FrameValues(frame)) == groups + [FrameValues(frame)];
      }
  }

  /** Parsing inverts printing: for every call forest, the groups are, per top-level burner
      call and in order, exactly the values its burner frames logged, empty groups removed. */
  lemma ParsePrinted(items: seq<Item>)
    ensures Groups(Print(items, 0)) == NonEmpty(TopLevelGroups(items))
  {
    RunTopLevel([], items);
    assert [] + TopLevelGroups(items) == TopLevelGroups(items);
  }
}
