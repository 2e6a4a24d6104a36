/**
  The CWCP1 checkpoint: a validated record with exactly one encoding, written line
  by line and read back by a strict parser.
 */
module Checkpoints {
  import opened Options
  import opened Texts

  datatype ThresholdResult = Feasible | Infeasible

  datatype CompletedThreshold = CompletedThreshold(threshold: Word32, result: ThresholdResult)

  datatype Checkpoint = Checkpoint(
    graphHash: string, solverHash: string, optionsHash: string,
    lowerBound: Word32, upperBound: Word32, elapsed: Word64,
    timedOut: bool, interrupted: bool,
    ordering: seq<Word32>, completed: seq<CompletedThreshold>)

  const MAGIC := "CWCP1"
  const LONGEST_HASH := 4096
  const EMPTY := Checkpoint("", "", "", 0, 0, 0, false, false, [], [])

  // ---- Validation ----

  predicate IsHash(text: string) {
    0 < |text| <= LONGEST_HASH && IsPrintable(text)
  }

  /** A feasible threshold is an upper bound; an infeasible one is strictly below the optimum. */
  predicate Agrees(c: Checkpoint, t: CompletedThreshold) {
    match t.result
    case Feasible => c.upperBound <= t.threshold
    case Infeasible => t.threshold < c.lowerBound
  }

  predicate Valid(c: Checkpoint) {
    && IsHash(c.graphHash) && IsHash(c.solverHash) && IsHash(c.optionsHash)
    && c.lowerBound <= c.upperBound
    && (forall i, j :: 0 <= i < j < |c.ordering| ==> c.ordering[i] != c.ordering[j])
    && (forall i, j :: 0 <= i < j < |c.completed| ==> c.completed[i].threshold < c.completed[j].threshold)
    && (forall i :: 0 <= i < |c.completed| ==> Agrees(c, c.completed[i]))
  }

  method Validate(c: Checkpoint) returns (ok: bool)
    ensures ok <==> Valid(c)
  {
    if c.graphHash == "" || c.solverHash == "" || c.optionsHash == "" {
      return false;
    }
    var hashes := [c.graphHash, c.solverHash, c.optionsHash];
    for k := 0 to 3
      invariant forall j :: 0 <= j < k ==> IsHash(hashes[j])
    {
      if |hashes[k]| > LONGEST_HASH {
        return false;
      }
      var printable := IsPrintableText(hashes[k]);
      if !printable {
        return false;
      }
    }
    assert IsHash(hashes[0]) && IsHash(hashes[1]) && IsHash(hashes[2]);
    if c.lowerBound > c.upperBound {
      return false;
    }
    var vertices: set<Word32> := {};
    for i := 0 to |c.ordering|
      invariant forall v :: v in vertices <==> v in c.ordering[..i]
      invariant forall j, k :: 0 <= j < k < i ==> c.ordering[j] != c.ordering[k]
    {
      if c.ordering[i] in vertices {
        assert exists j :: 0 <= j < i && c.ordering[j] == c.ordering[i];
        return false;
      }
      vertices := vertices + {c.ordering[i]};
      assert c.ordering[..i + 1] == c.ordering[..i] + [c.ordering[i]];
    }
    ok := ThresholdsAgree(c);
  }

  method IsPrintableText(text: string) returns (ok: bool)
    ensures ok <==> IsPrintable(text)
  {
    for i := 0 to |text|
      invariant IsPrintable(text[..i])
    {
      if text[i] as int < 0x21 || text[i] as int > 0x7e {
        return false;
      }
      assert text[..i + 1] == text[..i] + [text[i]];
    }
    assert text[..|text|] == text;
    return true;
  }

  method ThresholdsAgree(c: Checkpoint) returns (ok: bool)
    ensures ok <==>
      && (forall i, j :: 0 <= i < j < |c.completed| ==> c.completed[i].threshold < c.completed[j].threshold)
      && (forall i :: 0 <= i < |c.completed| ==> Agrees(c, c.completed[i]))
  {
    var thresholds: set<Word32> := {};
    var previous: Option<Word32> := None;
    for i := 0 to |c.completed|
      invariant thresholds == set j | 0 <= j < i :: c.completed[j].threshold
      invariant previous == if i == 0 then None else Some(c.completed[i - 1].threshold)
      invariant forall j, k :: 0 <= j < k < i ==> c.completed[j].threshold < c.completed[k].threshold
      invariant forall j :: 0 <= j < i ==> Agrees(c, c.completed[j])
    {
      var t := c.completed[i];
      if t.threshold in thresholds {
        return false;
      }
      if previous.Some? && t.threshold <= previous.value {
        return false;
      }
      thresholds := thresholds + {t.threshold};
      previous := Some(t.threshold);
      if t.result == Feasible && c.upperBound > t.threshold {
        return false;
      }
      if t.result == Infeasible && (t.threshold == 0xFFFF_FFFF || c.lowerBound < t.threshold + 1) {
        return false;
      }
    }
    return true;
  }

  /** No two thresholds of a valid checkpoint contradict each other. */
  lemma InfeasibleBelowFeasible(c: Checkpoint, i: nat, j: nat)
    requires Valid(c) && i < |c.completed| && j < |c.completed|
    requires c.completed[i].result == Infeasible && c.completed[j].result == Feasible
    ensures c.completed[i].threshold < c.completed[j].threshold && i < j
  {
    assert Agrees(c, c.completed[i]) && Agrees(c, c.completed[j]);
  }

  // ---- Encoding ----

  function ThresholdText(t: CompletedThreshold): string {
    Digits(t.threshold) + [':'] + [if t.result == Feasible then 'F' else 'I']
  }

  function NumberText(n: Word32): string {
    Digits(n)
  }

  function OrderingText(xs: seq<Word32>): string {
    Items(NumberText, xs)
  }

  function ThresholdsText(ts: seq<CompletedThreshold>): string {
    Items(ThresholdText, ts)
  }

  function BoolText(b: bool): string {
    if b then "1" else "0"
  }

  datatype Field =
    | GraphHash | SolverHash | OptionsHash | LowerBound | UpperBound
    | ElapsedMs | TimedOut | Interrupted | Ordering | CompletedThresholds

  const FIELDS: seq<Field> := [GraphHash, SolverHash, OptionsHash, LowerBound, UpperBound,
    ElapsedMs, TimedOut, Interrupted, Ordering, CompletedThresholds]

  function Key(f: Field): string {
    match f
    case GraphHash => "graph_hash"
    case SolverHash => "solver_hash"
    case OptionsHash => "options_hash"
    case LowerBound => "lower_bound"
    case UpperBound => "upper_bound"
    case ElapsedMs => "elapsed_ms"
    case TimedOut => "timed_out"
    case Interrupted => "interrupted"
    case Ordering => "ordering"
    case CompletedThresholds => "completed_thresholds"
  }

  function ValueText(c: Checkpoint, f: Field): string {
    match f
    case GraphHash => LengthPrefixed(c.graphHash)
    case SolverHash => LengthPrefixed(c.solverHash)
    case OptionsHash => LengthPrefixed(c.optionsHash)
    case LowerBound => Digits(c.lowerBound)
    case UpperBound => Digits(c.upperBound)
    case ElapsedMs => Digits(c.elapsed)
    case TimedOut => BoolText(c.timedOut)
    case Interrupted => BoolText(c.interrupted)
    case Ordering => OrderingText(c.ordering)
    case CompletedThresholds => ThresholdsText(c.completed)
  }

  function Line(c: Checkpoint, f: Field): string {
    Key(f) + ['='] + ValueText(c, f)
  }

  function LinesFrom(c: Checkpoint, k: nat): string
    requires k <= |FIELDS|
    decreases |FIELDS| - k
  {
    if k == |FIELDS| then "" else Line(c, FIELDS[k]) + ['\n'] + LinesFrom(c, k + 1)
  }

  /** The one encoding of a checkpoint. */
  function Encoding(c: Checkpoint): string {
    MAGIC + ['\n'] + LinesFrom(c, 0)
  }

  function Written(done: string, f: Field, value: string): string {
    done + (Key(f) + ['='] + value) + ['\n']
  }

  lemma LineWritten(c: Checkpoint, done: string, k: nat)
    requires k < |FIELDS|
    ensures Written(done, FIELDS[k], ValueText(c, FIELDS[k])) + LinesFrom(c, k + 1) == done + LinesFrom(c, k)
  {
    hide Key, ValueText;
  }

  method WriteOrdering(xs: seq<Word32>) returns (out: string)
    ensures out == OrderingText(xs)
  {
    out := "";
    for i := 0 to |xs|
      invariant out == OrderingText(xs[..i])
    {
      assert xs[..i + 1] == xs[..i] + [xs[i]];
      if i > 0 {
        ItemsSnoc(NumberText, xs[..i], xs[i]);
        out := out + [','];
      }
      out := out + Digits(xs[i]);
    }
    assert xs[..|xs|] == xs;
  }

  method WriteThresholds(ts: seq<CompletedThreshold>) returns (out: string)
    ensures out == ThresholdsText(ts)
  {
    out := "";
    for i := 0 to |ts|
      invariant out == ThresholdsText(ts[..i])
    {
      assert ts[..i + 1] == ts[..i] + [ts[i]];
      if i > 0 {
        ItemsSnoc(ThresholdText, ts[..i], ts[i]);
        out := out + [','];
      }
      ghost var done := out;
      out := out + Digits(ts[i].threshold) + [':'] + [if ts[i].result == Feasible then 'F' else 'I'];
      assert out == done + ThresholdText(ts[i]);
    }
    assert ts[..|ts|] == ts;
  }

  /** The encoding of a valid checkpoint; None for an invalid one, which is never written. */
  method Serialize(c: Checkpoint) returns (r: Option<string>)
    ensures r == if Valid(c) then Some(Encoding(c)) else None
  {
    hide Valid, Digits, LengthPrefixed, OrderingText, ThresholdsText, LinesFrom, Written, BoolText;
    var valid := Validate(c);
    if !valid {
      return None;
    }
    var out := MAGIC + ['\n'];
    LineWritten(c, out, 0);
    out := Written(out, GraphHash, LengthPrefixed(c.graphHash));
    LineWritten(c, out, 1);
    out := Written(out, SolverHash, LengthPrefixed(c.solverHash));
    LineWritten(c, out, 2);
    out := Written(out, OptionsHash, LengthPrefixed(c.optionsHash));
    LineWritten(c, out, 3);
    out := Written(out, LowerBound, Digits(c.lowerBound));
    LineWritten(c, out, 4);
    out := Written(out, UpperBound, Digits(c.upperBound));
    LineWritten(c, out, 5);
    out := Written(out, ElapsedMs, Digits(c.elapsed));
    LineWritten(c, out, 6);
    out := Written(out, TimedOut, BoolText(c.timedOut));
    LineWritten(c, out, 7);
    out := Written(out, Interrupted, BoolText(c.interrupted));
    LineWritten(c, out, 8);
    var ordering := WriteOrdering(c.ordering);
    out := Written(out, Ordering, ordering);
    LineWritten(c, out, 9);
    var thresholds := WriteThresholds(c.completed);
    out := Written(out, CompletedThresholds, thresholds);
    NoLinesLeft(c, out);
    return Some(out);
  }

  lemma NoLinesLeft(c: Checkpoint, done: string)
    ensures done + LinesFrom(c, |FIELDS|) == done
  {
  }

  // ---- Reading the values ----

  function ReadOrdering(text: string): Option<seq<Word32>> {
    if text == "" then Some([]) else ReadItems(ParseWord32, text)
  }

  function ParseThreshold(item: string): Option<CompletedThreshold> {
    var colon := Find(item, ':');
    if colon == |item| || colon + 2 != |item| then None
    else
      var code := item[colon + 1];
      if code != 'F' && code != 'I' then None
      else
        match ParseWord32(item[..colon])
        case None => None
        case Some(n) => Some(CompletedThreshold(n, if code == 'F' then Feasible else Infeasible))
  }

  function ReadThresholds(text: string): Option<seq<CompletedThreshold>> {
    if text == "" then Some([]) else ReadItems(ParseThreshold, text)
  }

  function ReadBool(text: string): Option<bool> {
    if text == "0" then Some(false) else if text == "1" then Some(true) else None
  }

  lemma NumbersInvert()
    ensures Inverse(ParseWord32, NumberText)
  {
    hide ParseInteger, Digits;
    forall n: Word32
      ensures ParseWord32(NumberText(n)) == Some(n) && NumberText(n) != "" && ',' !in NumberText(n)
    {
      IntegersRoundTrip(Digits(n), 0x1_0000_0000, n);
      DigitsAreNumeral(n);
      DigitsOnly(n, ',');
    }
    forall text: string | ParseWord32(text).Some?
      ensures text == NumberText(ParseWord32(text).value)
    {
      IntegersRoundTrip(text, 0x1_0000_0000, ParseWord32(text).value);
    }
  }

  lemma ThresholdWritten(t: CompletedThreshold)
    ensures ParseThreshold(ThresholdText(t)) == Some(t)
    ensures ThresholdText(t) != "" && ',' !in ThresholdText(t)
  {
    hide ParseInteger, Digits;
    var text, head := ThresholdText(t), Digits(t.threshold);
    var code := if t.result == Feasible then 'F' else 'I';
    assert text == head + [':'] + [code];
    IntegersRoundTrip(head, 0x1_0000_0000, t.threshold);
    DigitsAreNumeral(t.threshold);
    DigitsOnly(t.threshold, ',');
    DigitsOnly(t.threshold, ':');
    FindIsFirst(head, ':', [code]);
    assert text[..|head|] == head && text[|head| + 1] == code;
  }

  lemma ThresholdRead(text: string)
    requires ParseThreshold(text).Some?
    ensures text == ThresholdText(ParseThreshold(text).value)
  {
    hide ParseInteger, Digits;
    var colon, t := Find(text, ':'), ParseThreshold(text).value;
    IntegersRoundTrip(text[..colon], 0x1_0000_0000, t.threshold);
    assert text == text[..colon] + [':'] + [text[colon + 1]];
  }

  lemma ThresholdsInvert()
    ensures Inverse(ParseThreshold, ThresholdText)
  {
    hide ParseThreshold, ThresholdText;
    forall t: CompletedThreshold
      ensures ParseThreshold(ThresholdText(t)) == Some(t) && ThresholdText(t) != "" && ',' !in ThresholdText(t)
    {
      ThresholdWritten(t);
    }
    forall text: string | ParseThreshold(text).Some?
      ensures text == ThresholdText(ParseThreshold(text).value)
    {
      ThresholdRead(text);
    }
  }

  /** A comma list is read back exactly, and nothing else is accepted. */
  lemma OrderingRoundTrips(text: string, xs: seq<Word32>)
    ensures ReadOrdering(text) == Some(xs) <==> text == OrderingText(xs)
  {
    hide Inverse, ReadItems, ParseWord32, NumberText;
    NumbersInvert();
    if xs != [] {
      WrittenListIsRead(ParseWord32, NumberText, xs);
    }
    if text != "" && ReadItems(ParseWord32, text).Some? {
      ReadListIsWritten(ParseWord32, NumberText, text);
    }
  }

  lemma ThresholdsRoundTrip(text: string, ts: seq<CompletedThreshold>)
    ensures ReadThresholds(text) == Some(ts) <==> text == ThresholdsText(ts)
  {
    hide Inverse, ReadItems, ParseThreshold, ThresholdText;
    ThresholdsInvert();
    if ts != [] {
      WrittenListIsRead(ParseThreshold, ThresholdText, ts);
    }
    if text != "" && ReadItems(ParseThreshold, text).Some? {
      ReadListIsWritten(ParseThreshold, ThresholdText, text);
    }
  }

  method ParseOrdering(text: string) returns (r: Option<seq<Word32>>)
    ensures r == ReadOrdering(text)
  {
    hide ParseWord32;
    if text == "" {
      return Some([]);
    }
    var rest, numbers: seq<Word32> := text, [];
    PrependedNothing(ReadItems(ParseWord32, text));
    while true
      invariant ReadItems(ParseWord32, text) == Prepended(numbers, ReadItems(ParseWord32, rest))
      decreases |rest|
    {
      var comma := Find(rest, ',');
      var n := ParseWord32(rest[..comma]);
      if n.None? {
        return None;
      }
      PrependedTwice(numbers, n.value, if comma + 1 < |rest| then ReadItems(ParseWord32, rest[comma + 1..]) else None);
      numbers := numbers + [n.value];
      if comma == |rest| {
        return Some(numbers);
      }
      rest := rest[comma + 1..];
      if rest == "" {
        return None;
      }
    }
  }

  lemma PrependedNothing<T>(rest: Option<seq<T>>)
    ensures Prepended([], rest) == rest
  {
    if rest.Some? {
      assert [] + rest.value == rest.value;
    }
  }

  lemma PrependedTwice<T>(xs: seq<T>, x: T, rest: Option<seq<T>>)
    ensures Prepended(xs, Prepended([x], rest)) == Prepended(xs + [x], rest)
  {
    if rest.Some? {
      assert xs + ([x] + rest.value) == xs + [x] + rest.value;
    }
  }

  method ParseThresholds(text: string) returns (r: Option<seq<CompletedThreshold>>)
    ensures r == ReadThresholds(text)
  {
    if text == "" {
      return Some([]);
    }
    var rest, thresholds: seq<CompletedThreshold> := text, [];
    PrependedNothing(ReadItems(ParseThreshold, text));
    while true
      invariant ReadItems(ParseThreshold, text) == Prepended(thresholds, ReadItems(ParseThreshold, rest))
      decreases |rest|
    {
      var comma := Find(rest, ',');
      var item := rest[..comma];
      var colon := Find(item, ':');
      if colon == |item| || colon + 2 != |item| {
        return None;
      }
      var code := item[|item| - 1];
      if code != 'F' && code != 'I' {
        return None;
      }
      var n := ParseWord32(item[..colon]);
      if n.None? {
        return None;
      }
      var t := CompletedThreshold(n.value, if code == 'F' then Feasible else Infeasible);
      PrependedTwice(thresholds, t, if comma + 1 < |rest| then ReadItems(ParseThreshold, rest[comma + 1..]) else None);
      thresholds := thresholds + [t];
      if comma == |rest| {
        return Some(thresholds);
      }
      rest := rest[comma + 1..];
      if rest == "" {
        return None;
      }
    }
  }

  // ---- Reading the record ----

  function FieldOf(key: string): (r: Option<Field>)
    ensures r.Some? ==> key == Key(r.value)
  {
    if key == "graph_hash" then Some(GraphHash)
    else if key == "solver_hash" then Some(SolverHash)
    else if key == "options_hash" then Some(OptionsHash)
    else if key == "lower_bound" then Some(LowerBound)
    else if key == "upper_bound" then Some(UpperBound)
    else if key == "elapsed_ms" then Some(ElapsedMs)
    else if key == "timed_out" then Some(TimedOut)
    else if key == "interrupted" then Some(Interrupted)
    else if key == "ordering" then Some(Ordering)
    else if key == "completed_thresholds" then Some(CompletedThresholds)
    else None
  }

  /** The checkpoint with one field replaced by its text, or None when the text is malformed. */
  function ReadValue(c: Checkpoint, f: Field, text: string): Option<Checkpoint> {
    match f
    case GraphHash =>
      (match ParseLengthPrefixed(text) case None => None case Some(v) => Some(c.(graphHash := v)))
    case SolverHash =>
      (match ParseLengthPrefixed(text) case None => None case Some(v) => Some(c.(solverHash := v)))
    case OptionsHash =>
      (match ParseLengthPrefixed(text) case None => None case Some(v) => Some(c.(optionsHash := v)))
    case LowerBound =>
      (match ParseWord32(text) case None => None case Some(n) => Some(c.(lowerBound := n)))
    case UpperBound =>
      (match ParseWord32(text) case None => None case Some(n) => Some(c.(upperBound := n)))
    case ElapsedMs =>
      (match ParseWord64(text) case None => None case Some(n) => Some(c.(elapsed := n)))
    case TimedOut =>
      (match ReadBool(text) case None => None case Some(b) => Some(c.(timedOut := b)))
    case Interrupted =>
      (match ReadBool(text) case None => None case Some(b) => Some(c.(interrupted := b)))
    case Ordering =>
      (match ReadOrdering(text) case None => None case Some(xs) => Some(c.(ordering := xs)))
    case CompletedThresholds =>
      (match ReadThresholds(text) case None => None case Some(ts) => Some(c.(completed := ts)))
  }

  /** The fields of c that come before position k, the others still empty. */
  function Filled(c: Checkpoint, k: nat): Checkpoint
    requires k <= |FIELDS|
  {
    Checkpoint(
      if k > 0 then c.graphHash else "", if k > 1 then c.solverHash else "", if k > 2 then c.optionsHash else "",
      if k > 3 then c.lowerBound else 0, if k > 4 then c.upperBound else 0, if k > 5 then c.elapsed else 0,
      k > 6 && c.timedOut, k > 7 && c.interrupted,
      if k > 8 then c.ordering else [], if k > 9 then c.completed else [])
  }

  lemma HashRoundTrips(value: string)
    requires IsHash(value)
    ensures ParseLengthPrefixed(LengthPrefixed(value)) == Some(value)
  {
    LengthPrefixRoundTrips(value);
  }

  lemma ValueIsRead(c: Checkpoint, k: nat)
    requires Valid(c) && k < |FIELDS|
    ensures ReadValue(Filled(c, k), FIELDS[k], ValueText(c, FIELDS[k])) == Some(Filled(c, k + 1))
  {
    hide IsHash, LengthPrefixed, ParseLengthPrefixed, ParseInteger, Digits, ReadOrdering, OrderingText,
      ReadThresholds, ThresholdsText;
    match FIELDS[k]
    case GraphHash => HashRoundTrips(c.graphHash);
    case SolverHash => HashRoundTrips(c.solverHash);
    case OptionsHash => HashRoundTrips(c.optionsHash);
    case LowerBound => IntegersRoundTrip(Digits(c.lowerBound), 0x1_0000_0000, c.lowerBound);
    case UpperBound => IntegersRoundTrip(Digits(c.upperBound), 0x1_0000_0000, c.upperBound);
    case ElapsedMs => IntegersRoundTrip(Digits(c.elapsed), 0x1_0000_0000_0000_0000, c.elapsed);
    case TimedOut =>
    case Interrupted =>
    case Ordering => OrderingRoundTrips(OrderingText(c.ordering), c.ordering);
    case CompletedThresholds => ThresholdsRoundTrip(ThresholdsText(c.completed), c.completed);
  }

  datatype Progress = Progress(seen: set<string>, result: Checkpoint)

  function ReadLine(p: Progress, line: string): Option<Progress> {
    var equals := Find(line, '=');
    if equals == |line| then None
    else
      var key, value := line[..equals], line[equals + 1..];
      if key in p.seen then None
      else
        match FieldOf(key)
        case None => None
        case Some(f) =>
          match ReadValue(p.result, f, value)
          case None => None
          case Some(c) => Some(Progress(p.seen + {key}, c))
  }

  function ReadLines(p: Progress, text: string): Option<Progress>
    decreases |text|
  {
    if text == "" then Some(p)
    else
      match ReadLine(p, FirstLine(text))
      case None => None
      case Some(q) => ReadLines(q, AfterLine(text))
  }

  function FirstLine(text: string): string {
    text[..Find(text, '\n')]
  }

  function AfterLine(text: string): (rest: string)
    ensures text != "" ==> |rest| < |text|
  {
    var end := Find(text, '\n');
    if end < |text| then text[end + 1..] else ""
  }

  lemma FirstLineOf(line: string, rest: string)
    requires '\n' !in line
    ensures FirstLine(line + ['\n'] + rest) == line && AfterLine(line + ['\n'] + rest) == rest
  {
    FindIsFirst(line, '\n', rest);
  }

  lemma KeyIsRead(f: Field)
    ensures FieldOf(Key(f)) == Some(f)
  {
    match f
    case GraphHash =>
    case SolverHash =>
    case OptionsHash =>
    case LowerBound =>
    case UpperBound =>
    case ElapsedMs =>
    case TimedOut =>
    case Interrupted =>
    case Ordering =>
    case CompletedThresholds =>
  }

  lemma KeyIsPlain(f: Field, c: char)
    requires c == '=' || c == '\n'
    ensures c !in Key(f)
  {
    HashKeysArePlain(f, c);
    BoundKeysArePlain(f, c);
    ResultKeysArePlain(f, c);
  }

  lemma HashKeysArePlain(f: Field, c: char)
    requires c == '=' || c == '\n'
    ensures f.GraphHash? || f.SolverHash? || f.OptionsHash? ==> c !in Key(f)
  {
  }

  lemma BoundKeysArePlain(f: Field, c: char)
    requires c == '=' || c == '\n'
    ensures f.LowerBound? || f.UpperBound? || f.ElapsedMs? ==> c !in Key(f)
  {
  }

  lemma ResultKeysArePlain(f: Field, c: char)
    requires c == '=' || c == '\n'
    ensures f.TimedOut? || f.Interrupted? || f.Ordering? || f.CompletedThresholds? ==> c !in Key(f)
  {
  }

  lemma {:induction false} ItemsWithout<T(!new)>(write: T -> string, xs: seq<T>, c: char)
    requires c != ',' && forall x: T :: c !in write(x)
    ensures c !in Items(write, xs)
  {
    if |xs| > 1 {
      ItemsWithout(write, xs[1..], c);
    }
  }

  lemma ValueHasNoNewline(c: Checkpoint, f: Field)
    requires Valid(c)
    ensures '\n' !in ValueText(c, f)
  {
    hide Digits, Items;
    forall n: nat ensures '\n' !in Digits(n) {
      DigitsOnly(n, '\n');
    }
    match f
    case Ordering => ItemsWithout(NumberText, c.ordering, '\n');
    case CompletedThresholds => ItemsWithout(ThresholdText, c.completed, '\n');
    case _ =>
  }

  ghost function KeysBefore(k: nat): set<string>
    requires k <= |FIELDS|
  {
    if k == 0 then {} else KeysBefore(k - 1) + {Key(FIELDS[k - 1])}
  }

  function Position(f: Field): (k: nat)
    ensures k < |FIELDS| && FIELDS[k] == f
  {
    match f
    case GraphHash => 0
    case SolverHash => 1
    case OptionsHash => 2
    case LowerBound => 3
    case UpperBound => 4
    case ElapsedMs => 5
    case TimedOut => 6
    case Interrupted => 7
    case Ordering => 8
    case CompletedThresholds => 9
  }

  lemma PositionOf(k: nat)
    requires k < |FIELDS|
    ensures Position(FIELDS[k]) == k
  {
  }

  lemma {:induction false} KeysAreDistinct(k: nat)
    requires k <= |FIELDS|
    ensures |KeysBefore(k)| == k
    ensures forall key :: key in KeysBefore(k) ==> FieldOf(key).Some? && Position(FieldOf(key).value) < k
  {
    hide FieldOf, Key, Position;
    if k > 0 {
      KeysAreDistinct(k - 1);
      PositionOf(k - 1);
      KeyIsRead(FIELDS[k - 1]);
    }
  }

  /** Reading the next written line completes the next field. */
  lemma LineIsRead(c: Checkpoint, k: nat)
    requires Valid(c) && k < |FIELDS|
    ensures ReadLine(Progress(KeysBefore(k), Filled(c, k)), Line(c, FIELDS[k]))
         == Some(Progress(KeysBefore(k + 1), Filled(c, k + 1)))
  {
    hide Valid, FieldOf, Key, Position, ReadValue, ValueText, Filled;
    var f := FIELDS[k];
    var line := Line(c, f);
    KeyIsPlain(f, '=');
    KeyIsRead(f);
    PositionOf(k);
    KeysAreDistinct(k);
    FindIsFirst(Key(f), '=', ValueText(c, f));
    assert line[..|Key(f)|] == Key(f) && line[|Key(f)| + 1..] == ValueText(c, f);
    ValueIsRead(c, k);
  }

  lemma {:induction false} LinesAreRead(c: Checkpoint, k: nat)
    requires Valid(c) && k <= |FIELDS|
    ensures ReadLines(Progress(KeysBefore(k), Filled(c, k)), LinesFrom(c, k))
         == Some(Progress(KeysBefore(|FIELDS|), c))
    decreases |FIELDS| - k
  {
    hide Valid, Key, ReadLine, Line, ValueText, KeysBefore, FirstLine, AfterLine;
    if k < |FIELDS| {
      LineIsRead(c, k);
      LineHasNoNewline(c, FIELDS[k]);
      FirstLineOf(Line(c, FIELDS[k]), LinesFrom(c, k + 1));
      LinesAreRead(c, k + 1);
    }
  }

  lemma LineHasNoNewline(c: Checkpoint, f: Field)
    requires Valid(c)
    ensures '\n' !in Line(c, f)
  {
    hide Valid, Key, ValueText;
    KeyIsPlain(f, '\n');
    ValueHasNoNewline(c, f);
  }

  lemma EncodingIsRead(c: Checkpoint)
    requires Valid(c)
    ensures Encoding(c) != "" && Encoding(c)[|Encoding(c)| - 1] == '\n'
    ensures FirstLine(Encoding(c)) == MAGIC
    ensures ReadLines(Progress({}, EMPTY), AfterLine(Encoding(c))) == Some(Progress(KeysBefore(|FIELDS|), c))
  {
    hide Valid, LinesFrom, FirstLine, AfterLine, ReadLines;
    assert '\n' !in MAGIC;
    FirstLineOf(MAGIC, LinesFrom(c, 0));
    assert Filled(c, 0) == EMPTY;
    LinesAreRead(c, 0);
    LinesEndInNewline(c, 0);
  }

  /** Different checkpoints never share an encoding. */
  lemma EncodingIsInjective(c: Checkpoint, d: Checkpoint)
    requires Valid(c) && Valid(d) && Encoding(c) == Encoding(d)
    ensures c == d
  {
    hide *;
    EncodingIsRead(c);
    EncodingIsRead(d);
  }

  lemma {:induction false} LinesEndInNewline(c: Checkpoint, k: nat)
    requires k < |FIELDS|
    ensures LinesFrom(c, k) != "" && LinesFrom(c, k)[|LinesFrom(c, k)| - 1] == '\n'
    decreases |FIELDS| - k
  {
    hide Line;
    if k + 1 < |FIELDS| {
      LinesEndInNewline(c, k + 1);
    }
  }

  /** Accepts exactly the encodings of valid checkpoints, and returns the checkpoint that was encoded. */
  method ParseCheckpoint(encoded: string) returns (r: Option<Checkpoint>)
    ensures r.Some? ==> Valid(r.value) && encoded == Encoding(r.value)
    ensures forall c | Valid(c) && encoded == Encoding(c) :: r == Some(c)
  {
    hide Valid, Encoding, FirstLine, AfterLine, FieldOf, ReadValue, KeysBefore;
    forall c | Valid(c) && encoded == Encoding(c)
      ensures encoded != "" && encoded[|encoded| - 1] == '\n' && FirstLine(encoded) == MAGIC
      ensures ReadLines(Progress({}, EMPTY), AfterLine(encoded)) == Some(Progress(KeysBefore(|FIELDS|), c))
    {
      EncodingIsRead(c);
    }
    if encoded == "" || encoded[|encoded| - 1] != '\n' {
      return None;
    }
    if FirstLine(encoded) != MAGIC {
      return None;
    }
    var rest := AfterLine(encoded);
    var seen: set<string>, result := {}, EMPTY;
    while rest != ""
      invariant ReadLines(Progress({}, EMPTY), AfterLine(encoded)) == ReadLines(Progress(seen, result), rest)
      decreases |rest|
    {
      var line := FirstLine(rest);
      rest := AfterLine(rest);
      if line == "" {
        return None;
      }
      var equals := Find(line, '=');
      if equals == |line| {
        return None;
      }
      var key, value := line[..equals], line[equals + 1..];
      if key in seen {
        return None;
      }
      var field := FieldOf(key);
      if field.None? {
        return None;
      }
      var next := ReadValue(result, field.value, value);
      if next.None? {
        return None;
      }
      seen, result := seen + {key}, next.value;
    }
    KeysAreDistinct(|FIELDS|);
    if |seen| != |FIELDS| {
      return None;
    }
    var valid := Validate(result);
    if !valid {
      return None;
    }
    var canonical := Serialize(result);
    if canonical.value != encoded {
      return None;
    }
    return Some(result);
  }

  // ---- The format, letter by letter ----

  /** A hash is one to 4096 characters, each from the exclamation mark to the tilde. */
  lemma HashLimits(text: string)
    ensures IsHash(text) <==> 1 <= |text| <= 4096 && forall i :: 0 <= i < |text| ==> '!' <= text[i] <= '~'
  {
  }

  const SMALL := Checkpoint("g1", "s", "a=b", 2, 3, 450, true, false, [1, 0, 12],
    [CompletedThreshold(1, Infeasible), CompletedThreshold(3, Feasible)])

  lemma SmallNumbers()
    ensures Digits(1) == "1" && Digits(0) == "0" && Digits(12) == "12" && Digits(2) == "2" && Digits(3) == "3"
    ensures Digits(450) == "450"
  {
    assert Digits(1) == [(48 + 1) as char] && Digits(0) == [48 as char] && Digits(2) == [50 as char];
    assert Digits(12) == Digits(1) + [50 as char];
    assert Digits(4) == [52 as char] && Digits(45) == Digits(4) + [53 as char];
    assert Digits(450) == Digits(45) + [48 as char];
  }

  lemma SmallLists()
    ensures OrderingText([1, 0, 12]) == "1,0,12"
    ensures ThresholdsText([CompletedThreshold(1, Infeasible), CompletedThreshold(3, Feasible)]) == "1:I,3:F"
  {
    hide Digits;
    SmallNumbers();
    var xs: seq<Word32> := [1, 0, 12];
    assert xs[1..] == [0, 12] && xs[1..][1..] == [12];
    assert Items(NumberText, xs[1..][1..]) == "12";
    assert Items(NumberText, xs[1..]) == "0" + [','] + "12";
    var ts := [CompletedThreshold(1, Infeasible), CompletedThreshold(3, Feasible)];
    assert ts[1..] == [CompletedThreshold(3, Feasible)];
    assert Items(ThresholdText, ts[1..]) == "3" + [':'] + ['F'];
  }

  lemma SmallLines()
    ensures Line(SMALL, GraphHash) == "graph_hash=2:g1" && Line(SMALL, SolverHash) == "solver_hash=1:s"
    ensures Line(SMALL, OptionsHash) == "options_hash=3:a=b" && Line(SMALL, LowerBound) == "lower_bound=2"
    ensures Line(SMALL, UpperBound) == "upper_bound=3" && Line(SMALL, ElapsedMs) == "elapsed_ms=450"
    ensures Line(SMALL, TimedOut) == "timed_out=1" && Line(SMALL, Interrupted) == "interrupted=0"
    ensures Line(SMALL, Ordering) == "ordering=1,0,12"
    ensures Line(SMALL, CompletedThresholds) == "completed_thresholds=1:I,3:F"
  {
    hide Digits, OrderingText, ThresholdsText;
    SmallNumbers();
    SmallLists();
  }

  lemma LastLines()
    ensures LinesFrom(SMALL, 5) ==
              "elapsed_ms=450\n" + "timed_out=1\n" + "interrupted=0\n" + "ordering=1,0,12\n" +
              "completed_thresholds=1:I,3:F\n"
  {
    hide Line;
    SmallLines();
    assert LinesFrom(SMALL, 10) == "";
    assert LinesFrom(SMALL, 9) == "completed_thresholds=1:I,3:F" + ['\n'] + LinesFrom(SMALL, 10);
    assert LinesFrom(SMALL, 8) == "ordering=1,0,12" + ['\n'] + LinesFrom(SMALL, 9);
    assert LinesFrom(SMALL, 7) == "interrupted=0" + ['\n'] + LinesFrom(SMALL, 8);
    assert LinesFrom(SMALL, 6) == "timed_out=1" + ['\n'] + LinesFrom(SMALL, 7);
    assert LinesFrom(SMALL, 5) == "elapsed_ms=450" + ['\n'] + LinesFrom(SMALL, 6);
  }

  lemma FirstLines()
    ensures LinesFrom(SMALL, 0) ==
              "graph_hash=2:g1\n" + "solver_hash=1:s\n" + "options_hash=3:a=b\n" + "lower_bound=2\n" +
              "upper_bound=3\n" + LinesFrom(SMALL, 5)
  {
    hide Line;
    SmallLines();
    var rest := LinesFrom(SMALL, 5);
    assert LinesFrom(SMALL, 4) == "upper_bound=3" + ['\n'] + rest;
    assert LinesFrom(SMALL, 3) == "lower_bound=2" + ['\n'] + LinesFrom(SMALL, 4);
    assert LinesFrom(SMALL, 2) == "options_hash=3:a=b" + ['\n'] + LinesFrom(SMALL, 3);
    assert LinesFrom(SMALL, 1) == "solver_hash=1:s" + ['\n'] + LinesFrom(SMALL, 2);
    assert LinesFrom(SMALL, 0) == "graph_hash=2:g1" + ['\n'] + LinesFrom(SMALL, 1);
  }

  lemma SmallIsValid()
    ensures Valid(SMALL)
  {
    HashLimits(SMALL.graphHash);
    HashLimits(SMALL.solverHash);
    HashLimits(SMALL.optionsHash);
  }

  /** The whole text of one small checkpoint. */
  lemma SmallText()
    ensures Valid(SMALL)
    ensures Encoding(SMALL) ==
              "CWCP1\n" + "graph_hash=2:g1\n" + "solver_hash=1:s\n" + "options_hash=3:a=b\n" + "lower_bound=2\n" +
              "upper_bound=3\n" + "elapsed_ms=450\n" + "timed_out=1\n" + "interrupted=0\n" + "ordering=1,0,12\n" +
              "completed_thresholds=1:I,3:F\n"
  {
    hide Line, LinesFrom, Valid;
    SmallIsValid();
    FirstLines();
    LastLines();
    assert MAGIC + ['\n'] == "CWCP1\n";
    Regrouped("graph_hash=2:g1\n" + "solver_hash=1:s\n" + "options_hash=3:a=b\n" + "lower_bound=2\n" + "upper_bound=3\n",
              "elapsed_ms=450\n", "timed_out=1\n", "interrupted=0\n", "ordering=1,0,12\n",
              "completed_thresholds=1:I,3:F\n");
    Regrouped("CWCP1\n", "graph_hash=2:g1\n", "solver_hash=1:s\n", "options_hash=3:a=b\n", "lower_bound=2\n",
              "upper_bound=3\n");
  }

  lemma Regrouped(head: string, a: string, b: string, c: string, d: string, e: string)
    ensures head + (a + b + c + d + e) == head + a + b + c + d + e
  {
  }
}
