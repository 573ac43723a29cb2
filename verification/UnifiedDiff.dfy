/**
 The unified-diff assembler of src/diff.rs: `compute_unified_diff` and `flush_hunk_to_out`. The
 diff algorithm is not modelled; everything holds for every edit script it could report. Lines
 are texts without their terminators.
 */
module UnifiedDiff {
  import opened Basics

  type Line = string

  /** One step of an edit script, and one line of a hunk's body. */
  datatype Change = Equal(text: Line) | Delete(text: Line) | Insert(text: Line)

  /** A line waiting to be written, with its 1-based numbers. */
  datatype EditLine =
    | Context(oldNo: nat, newNo: nat, text: Line)
    | Removed(oldNo: nat, text: Line)
    | Added(newNo: nat, text: Line)

  /** `@@ -oldStart,oldCount +newStart,newCount @@` and the lines below it. */
  datatype Hunk = Hunk(oldStart: nat, oldCount: nat, newStart: nat, newCount: nat, body: seq<Change>)

  // ---------------------------------------------------------------- edit scripts

  /** The old lines a script consumes. */
  function OldSide(script: seq<Change>): (lines: seq<Line>)
    ensures |lines| <= |script|
  {
    if script == [] then []
    else (if script[0].Insert? then [] else [script[0].text]) + OldSide(script[1..])
  }

  /** The new lines a script produces. */
  function NewSide(script: seq<Change>): (lines: seq<Line>)
    ensures |lines| <= |script|
  {
    if script == [] then []
    else (if script[0].Delete? then [] else [script[0].text]) + NewSide(script[1..])
  }

  lemma {:induction false} OldSideConcat(a: seq<Change>, b: seq<Change>)
    ensures OldSide(a + b) == OldSide(a) + OldSide(b)
  {
    if a == [] {
      assert a + b == b;
    } else {
      OldSideConcat(a[1..], b);
      assert (a + b)[1..] == a[1..] + b;
      var first := if a[0].Insert? then [] else [a[0].text];
      assert OldSide(a + b) == first + OldSide(a[1..] + b);
      assert first + (OldSide(a[1..]) + OldSide(b)) == first + OldSide(a[1..]) + OldSide(b);
    }
  }

  lemma {:induction false} NewSideConcat(a: seq<Change>, b: seq<Change>)
    ensures NewSide(a + b) == NewSide(a) + NewSide(b)
  {
    if a == [] {
      assert a + b == b;
    } else {
      NewSideConcat(a[1..], b);
      assert (a + b)[1..] == a[1..] + b;
      var first := if a[0].Delete? then [] else [a[0].text];
      assert NewSide(a + b) == first + NewSide(a[1..] + b);
      assert first + (NewSide(a[1..]) + NewSide(b)) == first + NewSide(a[1..]) + NewSide(b);
    }
  }

  lemma SidesSplit(script: seq<Change>, i: nat, j: nat)
    requires i <= j <= |script|
    ensures OldSide(script[..j]) == OldSide(script[..i]) + OldSide(script[i..j])
    ensures NewSide(script[..j]) == NewSide(script[..i]) + NewSide(script[i..j])
  {
    assert script[..j] == script[..i] + script[i..j];
    OldSideConcat(script[..i], script[i..j]);
    NewSideConcat(script[..i], script[i..j]);
  }

  /** Number of old lines before position `p`. */
  function OldPos(script: seq<Change>, p: nat): nat
    requires p <= |script|
  {
    |OldSide(script[..p])|
  }

  function NewPos(script: seq<Change>, p: nat): nat
    requires p <= |script|
  {
    |NewSide(script[..p])|
  }

  lemma PosStep(script: seq<Change>, p: nat)
    requires p < |script|
    ensures OldPos(script, p + 1) == OldPos(script, p) + (if script[p].Insert? then 0 else 1)
    ensures NewPos(script, p + 1) == NewPos(script, p) + (if script[p].Delete? then 0 else 1)
  {
    SidesSplit(script, p, p + 1);
    assert script[p..p + 1] == [script[p]] && [script[p]][1..] == [];
  }

  /** The numbered line for position `p`. */
  function Numbered(script: seq<Change>, p: nat): EditLine
    requires p < |script|
  {
    match script[p]
    case Equal(t) => Context(OldPos(script, p) + 1, NewPos(script, p) + 1, t)
    case Delete(t) => Removed(OldPos(script, p) + 1, t)
    case Insert(t) => Added(NewPos(script, p) + 1, t)
  }

  /** The numbered lines for positions `a` to `b`. */
  function Entries(script: seq<Change>, a: nat, b: nat): (s: seq<EditLine>)
    requires a <= b <= |script|
    ensures |s| == b - a
    ensures forall k :: 0 <= k < b - a ==> s[k] == Numbered(script, a + k)
  {
    seq(b - a, k requires 0 <= k < b - a => Numbered(script, a + k))
  }

  lemma EntriesJoin(script: seq<Change>, a: nat, m: nat, b: nat)
    requires a <= m <= b <= |script|
    ensures Entries(script, a, m) + Entries(script, m, b) == Entries(script, a, b)
  {
  }

  // ---------------------------------------------------------------- flushing a hunk

  /** The old line numbers in a list of numbered lines. */
  function OldNumbers(lines: seq<EditLine>): (nos: seq<nat>) {
    if lines == [] then []
    else (if lines[0].Added? then [] else [lines[0].oldNo]) + OldNumbers(lines[1..])
  }

  function NewNumbers(lines: seq<EditLine>): (nos: seq<nat>) {
    if lines == [] then []
    else (if lines[0].Removed? then [] else [lines[0].newNo]) + NewNumbers(lines[1..])
  }

  /** The lines as they are printed. */
  function Printed(lines: seq<EditLine>): (body: seq<Change>)
    ensures |body| == |lines|
  {
    seq(|lines|, k requires 0 <= k < |lines| =>
      match lines[k] case Context(_, _, t) => Equal(t) case Removed(_, t) => Delete(t) case Added(_, t) => Insert(t))
  }

  function MaxOf(nos: seq<nat>, least: nat): (m: nat)
    ensures m >= least && (nos == [] ==> m == least)
  {
    if nos == [] then least else MaxOf(nos[1..], if least < nos[0] then nos[0] else least)
  }

  /** First number of a side, or the one after the last line printed so far. */
  function StartOf(nos: seq<nat>, lastSeen: nat): nat {
    if nos == [] then lastSeen + 1 else nos[0]
  }

  /** What flushing makes of its arguments: a hunk, the next prefix and the last lines printed. */
  ghost predicate FlushEffect(curHunk: seq<EditLine>, eqRun: seq<EditLine>, prefix0: seq<EditLine>, context: nat, lastOld0: nat, lastNew0: nat,
                              hunk: Option<Hunk>, prefix: seq<EditLine>, lastOld: nat, lastNew: nat) {
    var lines := curHunk + eqRun[..Min(|eqRun|, context)];
    var olds, news := OldNumbers(lines), NewNumbers(lines);
    if olds == [] && news == [] then
      hunk == None && prefix == prefix0 && lastOld == lastOld0 && lastNew == lastNew0
    else
      && hunk == Some(Hunk(StartOf(olds, lastOld0), |olds|, StartOf(news, lastNew0), |news|, Printed(lines)))
      && prefix == (if |eqRun| <= context then eqRun else eqRun[|eqRun| - context..])
      && lastOld == MaxOf(olds, lastOld0) && lastNew == MaxOf(news, lastNew0)
  }

  /** Prints the current hunk with up to `context` trailing equal lines; nothing when it is empty. */
  method FlushHunk(curHunk: seq<EditLine>, eqRun: seq<EditLine>, prefix0: seq<EditLine>, context: nat, lastOld0: nat, lastNew0: nat)
      returns (hunk: Option<Hunk>, prefix: seq<EditLine>, lastOld: nat, lastNew: nat)
    ensures FlushEffect(curHunk, eqRun, prefix0, context, lastOld0, lastNew0, hunk, prefix, lastOld, lastNew)
  {
    var lines := curHunk + eqRun[..Min(|eqRun|, context)];
    var oldFirst, newFirst, oldCount, newCount := ScanNumbers(lines);
    prefix, lastOld, lastNew := prefix0, lastOld0, lastNew0;
    if oldCount == 0 && newCount == 0 { return None, prefix, lastOld, lastNew; }
    var oldStart := if oldFirst.Some? then oldFirst.value else lastOld0 + 1;
    var newStart := if newFirst.Some? then newFirst.value else lastNew0 + 1;
    var body;
    body, lastOld, lastNew := Print(lines, lastOld0, lastNew0);
    hunk := Some(Hunk(oldStart, oldCount, newStart, newCount, body));
    prefix := [];
    if context > 0 {
      prefix := eqRun[(if |eqRun| <= context then 0 else |eqRun| - context)..];
    }
  }

  /** The header scan. */
  method ScanNumbers(lines: seq<EditLine>)
      returns (oldFirst: Option<nat>, newFirst: Option<nat>, oldCount: nat, newCount: nat)
    ensures var olds, news := OldNumbers(lines), NewNumbers(lines);
      && oldCount == |olds| && newCount == |news|
      && oldFirst == (if olds == [] then None else Some(olds[0]))
      && newFirst == (if news == [] then None else Some(news[0]))
  {
    oldFirst, newFirst, oldCount, newCount := None, None, 0, 0;
    assert lines[0..] == lines;
    for k := 0 to |lines|
      invariant Scanned(OldNumbers(lines), OldNumbers(lines[k..]), oldFirst, oldCount)
      invariant Scanned(NewNumbers(lines), NewNumbers(lines[k..]), newFirst, newCount)
    {
      assert lines[k..][0] == lines[k] && lines[k..][1..] == lines[k + 1..];
      if !lines[k].Added? {
        if oldFirst.None? { oldFirst := Some(lines[k].oldNo); }
        oldCount := oldCount + 1;
      }
      if !lines[k].Removed? {
        if newFirst.None? { newFirst := Some(lines[k].newNo); }
        newCount := newCount + 1;
      }
    }
  }

  /** `count` numbers have been seen, the rest is `rest`. */
  ghost predicate Scanned(all: seq<nat>, rest: seq<nat>, first: Option<nat>, count: nat) {
    && |all| == count + |rest|
    && (count == 0 ==> first == None && rest == all)
    && (count > 0 ==> first == Some(all[0]))
  }

  lemma NumbersAt(lines: seq<EditLine>, k: nat)
    requires k < |lines|
    ensures var rest := OldNumbers(lines[k + 1..]);
      OldNumbers(lines[k..]) == if lines[k].Added? then rest else [lines[k].oldNo] + rest
    ensures var rest := NewNumbers(lines[k + 1..]);
      NewNumbers(lines[k..]) == if lines[k].Removed? then rest else [lines[k].newNo] + rest
  {
    assert lines[k..][1..] == lines[k + 1..];
  }

  lemma MaxOfCons(x: nat, nos: seq<nat>, least: nat)
    ensures MaxOf([x] + nos, least) == MaxOf(nos, if least < x then x else least)
  {
    assert ([x] + nos)[1..] == nos;
  }

  /** The printing loop, which also moves the last line numbers seen. */
  method Print(lines: seq<EditLine>, lastOld0: nat, lastNew0: nat) returns (body: seq<Change>, lastOld: nat, lastNew: nat)
    ensures body == Printed(lines)
    ensures lastOld == MaxOf(OldNumbers(lines), lastOld0) && lastNew == MaxOf(NewNumbers(lines), lastNew0)
  {
    body, lastOld, lastNew := [], lastOld0, lastNew0;
    assert lines[0..] == lines;
    for k := 0 to |lines|
      invariant body == Printed(lines)[..k]
      invariant MaxOf(OldNumbers(lines[k..]), lastOld) == MaxOf(OldNumbers(lines), lastOld0)
      invariant MaxOf(NewNumbers(lines[k..]), lastNew) == MaxOf(NewNumbers(lines), lastNew0)
    {
      NumbersAt(lines, k);
      assert Printed(lines)[..k + 1] == Printed(lines)[..k] + [Printed(lines)[k]];
      hide OldNumbers, NewNumbers, MaxOf;
      if !lines[k].Added? { MaxOfCons(lines[k].oldNo, OldNumbers(lines[k + 1..]), lastOld); }
      if !lines[k].Removed? { MaxOfCons(lines[k].newNo, NewNumbers(lines[k + 1..]), lastNew); }
      match lines[k]
      case Context(o, n, t) =>
        body := body + [Equal(t)];
        lastOld, lastNew := if lastOld < o then o else lastOld, if lastNew < n then n else lastNew;
      case Removed(o, t) =>
        body := body + [Delete(t)];
        lastOld := if lastOld < o then o else lastOld;
      case Added(n, t) =>
        body := body + [Insert(t)];
        lastNew := if lastNew < n then n else lastNew;
    }
  }

  // ---------------------------------------------------------------- what the hunks should be

  /** Some change lies within `context` lines. */
  ghost predicate Covered(script: seq<Change>, context: nat, p: int) {
    exists c :: 0 <= c < |script| && !script[c].Equal? && p - context <= c <= p + context
  }

  /** Positions `a` to `b` are a longest stretch of covered positions. */
  ghost predicate IsSpan(script: seq<Change>, context: nat, a: nat, b: nat) {
    && a < b <= |script|
    && (forall p :: a <= p < b ==> Covered(script, context, p))
    && (a > 0 ==> !Covered(script, context, a - 1))
    && (b < |script| ==> !Covered(script, context, b))
  }

  ghost predicate InSpans(spans: seq<(nat, nat)>, p: nat) {
    exists k :: 0 <= k < |spans| && spans[k].0 <= p < spans[k].1
  }

  /** The spans are such stretches, apart from each other, and hold every change before `upto`. */
  ghost predicate SpansUpTo(script: seq<Change>, context: nat, spans: seq<(nat, nat)>, upto: nat)
    requires upto <= |script|
  {
    && (forall k :: 0 <= k < |spans| ==> IsSpan(script, context, spans[k].0, spans[k].1))
    && (forall k, l :: 0 <= k < l < |spans| ==> spans[k].1 < spans[l].0)
    && (forall p :: 0 <= p < upto && !script[p].Equal? ==> InSpans(spans, p))
  }

  /** The covered stretches of the whole script, in order. */
  ghost predicate Spans(script: seq<Change>, context: nat, spans: seq<(nat, nat)>) {
    SpansUpTo(script, context, spans, |script|)
  }

  function End(spans: seq<(nat, nat)>): nat {
    if spans == [] then 0 else spans[|spans| - 1].1
  }

  /** The hunk for a span: its lines, how many of each side, and where they start. */
  function HunkOf(script: seq<Change>, a: nat, b: nat): Hunk
    requires a <= b <= |script|
  {
    var body := script[a..b];
    var oldCount, newCount := |OldSide(body)|, |NewSide(body)|;
    Hunk(if oldCount == 0 then 1 else OldPos(script, a) + 1, oldCount,
         if newCount == 0 then 1 else NewPos(script, a) + 1, newCount, body)
  }

  ghost predicate AreHunksOf(hunks: seq<Hunk>, script: seq<Change>, spans: seq<(nat, nat)>) {
    && |hunks| == |spans|
    && forall k :: 0 <= k < |spans| ==>
         spans[k].0 <= spans[k].1 <= |script| && hunks[k] == HunkOf(script, spans[k].0, spans[k].1)
  }

  /** Covered positions are exactly those in the spans. */
  lemma CoveredIffInSpans(script: seq<Change>, context: nat, spans: seq<(nat, nat)>, p: nat)
    requires Spans(script, context, spans) && p < |script|
    ensures Covered(script, context, p) <==> InSpans(spans, p)
  {
    hide IsSpan;
    if Covered(script, context, p) {
      var c: nat :| c < |script| && !script[c].Equal? && p - context <= c <= p + context;
      assert InSpans(spans, c);
      var k :| 0 <= k < |spans| && spans[k].0 <= c < spans[k].1;
      NearSpan(script, context, spans[k].0, spans[k].1, c, p);
    }
    if InSpans(spans, p) {
      var k :| 0 <= k < |spans| && spans[k].0 <= p < spans[k].1;
      InSpan(script, context, spans[k].0, spans[k].1, p);
    }
  }

  lemma NearSpan(script: seq<Change>, context: nat, a: nat, b: nat, c: nat, p: nat)
    requires IsSpan(script, context, a, b) && a <= c < b && !script[c].Equal?
    requires p - context <= c <= p + context && p < |script|
    ensures a <= p < b
  {
    assert p >= b ==> Covered(script, context, b);
    assert p < a ==> Covered(script, context, a - 1);
  }

  lemma InSpan(script: seq<Change>, context: nat, a: nat, b: nat, p: nat)
    requires IsSpan(script, context, a, b) && a <= p < b
    ensures Covered(script, context, p)
  {
  }

  /** A side is missing from a hunk only when it is missing from the whole script. */
  lemma ZeroCountMeansEmptySide(script: seq<Change>, context: nat, a: nat, b: nat)
    requires IsSpan(script, context, a, b) && context >= 1
    ensures OldSide(script[a..b]) == [] ==> OldSide(script) == [] && a == 0 && b == |script|
    ensures NewSide(script[a..b]) == [] ==> NewSide(script) == [] && a == 0 && b == |script|
  {
    if OldSide(script[a..b]) == [] || NewSide(script[a..b]) == [] {
      NoEquals(script[a..b]);
      assert script[a] == script[a..b][0] && script[b - 1] == script[a..b][b - a - 1];
      assert a > 0 ==> Covered(script, context, a - 1);
      assert b < |script| ==> Covered(script, context, b);
      assert script[a..b] == script;
    }
  }

  lemma {:induction false} NoEquals(s: seq<Change>)
    requires OldSide(s) == [] || NewSide(s) == []
    ensures forall i :: 0 <= i < |s| ==> !s[i].Equal?
  {
    if s != [] { NoEquals(s[1..]); }
  }

  // ---------------------------------------------------------------- numbers of a stretch

  function Consecutive(start: nat, n: nat): (s: seq<nat>)
    ensures |s| == n && forall k :: 0 <= k < n ==> s[k] == start + k
  {
    seq(n, k requires 0 <= k < n => start + k)
  }

  lemma {:induction false} OldEntriesNumbers(script: seq<Change>, a: nat, b: nat)
    requires a <= b <= |script|
    ensures OldPos(script, a) <= OldPos(script, b)
    ensures OldNumbers(Entries(script, a, b)) == Consecutive(OldPos(script, a) + 1, OldPos(script, b) - OldPos(script, a))
    decreases b - a
  {
    hide OldPos, NewPos, Entries, Consecutive, Numbered;
    if a == b {
      assert Entries(script, a, b) == [];
    } else {
      OldEntriesNumbers(script, a + 1, b);
      PosStep(script, a);
      EntriesCons(script, a, b);
      hide OldNumbers, NewNumbers;
      if !script[a].Insert? { ConsecutiveCons(OldPos(script, a) + 1, OldPos(script, b) - OldPos(script, a)); }
    }
  }

  lemma {:induction false} NewEntriesNumbers(script: seq<Change>, a: nat, b: nat)
    requires a <= b <= |script|
    ensures NewPos(script, a) <= NewPos(script, b)
    ensures NewNumbers(Entries(script, a, b)) == Consecutive(NewPos(script, a) + 1, NewPos(script, b) - NewPos(script, a))
    decreases b - a
  {
    hide OldPos, NewPos, Entries, Consecutive, Numbered;
    if a == b {
      assert Entries(script, a, b) == [];
    } else {
      NewEntriesNumbers(script, a + 1, b);
      PosStep(script, a);
      EntriesCons(script, a, b);
      hide OldNumbers, NewNumbers;
      if !script[a].Delete? { ConsecutiveCons(NewPos(script, a) + 1, NewPos(script, b) - NewPos(script, a)); }
    }
  }

  lemma EntriesCons(script: seq<Change>, a: nat, b: nat)
    requires a < b <= |script|
    ensures var olds, news := OldNumbers(Entries(script, a + 1, b)), NewNumbers(Entries(script, a + 1, b));
      && OldNumbers(Entries(script, a, b)) == (if script[a].Insert? then olds else [OldPos(script, a) + 1] + olds)
      && NewNumbers(Entries(script, a, b)) == (if script[a].Delete? then news else [NewPos(script, a) + 1] + news)
  {
    hide OldPos, NewPos;
    var s := Entries(script, a, b);
    assert s[0..] == s && s[0] == Numbered(script, a);
    assert s[1..] == Entries(script, a + 1, b);
    hide OldNumbers, NewNumbers;
    NumbersAt(s, 0);
  }

  lemma ConsecutiveCons(start: nat, n: nat)
    requires n > 0
    ensures Consecutive(start, n) == [start] + Consecutive(start + 1, n - 1)
  {
  }

  lemma {:induction false} MaxOfConsecutive(start: nat, n: nat, least: nat)
    requires least < start
    ensures MaxOf(Consecutive(start, n), least) == if n == 0 then least else start + n - 1
    decreases n
  {
    if n > 0 {
      assert Consecutive(start, n)[1..] == Consecutive(start + 1, n - 1);
      MaxOfConsecutive(start + 1, n - 1, start);
    }
  }

  lemma PrintedEntries(script: seq<Change>, a: nat, b: nat)
    requires a <= b <= |script|
    ensures Printed(Entries(script, a, b)) == script[a..b]
  {
    hide OldPos, NewPos;
  }

  lemma SideCounts(script: seq<Change>, a: nat, b: nat)
    requires a <= b <= |script|
    ensures OldPos(script, b) == OldPos(script, a) + |OldSide(script[a..b])|
    ensures NewPos(script, b) == NewPos(script, a) + |NewSide(script[a..b])|
  {
    SidesSplit(script, a, b);
  }

  // ---------------------------------------------------------------- the streaming loop

  /** The variables of the loop: rolling prefix, current hunk, run of equal lines, line numbers, output. */
  datatype State = State(prefix: seq<EditLine>, cur: seq<EditLine>, run: seq<EditLine>, inHunk: bool,
                         lastOld: nat, lastNew: nat, oldNo: nat, newNo: nat, out: seq<Hunk>)

  function Lead(i: nat, context: nat): (l: nat)
    ensures l <= i
  {
    if i <= context then 0 else i - context
  }

  ghost predicate AllEqual(script: seq<Change>, from: nat, to: nat)
    requires to <= |script|
  {
    forall p :: from <= p < to ==> script[p].Equal?
  }

  /** Between hunks: only equal lines since the last one, the latest of them in the prefix. */
  ghost predicate Outside(script: seq<Change>, context: nat, i: nat, st: State, spans: seq<(nat, nat)>)
    requires i <= |script|
  {
    && st.cur == [] && st.run == []
    && SpansUpTo(script, context, spans, i)
    && (spans == [] ==> AllEqual(script, 0, i))
    && (spans != [] ==> End(spans) + context < i && context <= End(spans) && AllEqual(script, End(spans) - context, i))
    && st.prefix == Entries(script, Lead(i, context), i)
  }

  /** Inside a hunk that starts at `a` and whose last change is just before `e`. */
  ghost predicate Inside(script: seq<Change>, context: nat, i: nat, st: State, spans: seq<(nat, nat)>, a: nat, e: nat)
    requires i <= |script|
  {
    && a < e <= i <= e + 2 * context
    && SpansUpTo(script, context, spans, a) && (spans != [] ==> End(spans) < a)
    && !script[e - 1].Equal? && AllEqual(script, e, i)
    && (a > 0 ==> !Covered(script, context, a - 1))
    && (forall p :: a <= p < e ==> Covered(script, context, p))
    && st.prefix == [] && st.cur == Entries(script, a, e) && st.run == Entries(script, e, i)
  }

  /** After `i` steps of the script. */
  ghost predicate Inv(script: seq<Change>, context: nat, i: nat, st: State, spans: seq<(nat, nat)>, a: nat, e: nat) {
    && i <= |script|
    && st.oldNo == OldPos(script, i) + 1 && st.newNo == NewPos(script, i) + 1
    && AreHunksOf(st.out, script, spans) && End(spans) <= |script|
    && st.lastOld == OldPos(script, End(spans)) && st.lastNew == NewPos(script, End(spans))
    && (if st.inHunk then Inside(script, context, i, st, spans, a, e) else Outside(script, context, i, st, spans))
  }

  /** Flushing the lines of a span prints the hunk of the span. */
  lemma FlushedHunk(script: seq<Change>, a: nat, b: nat, lastOld: nat, lastNew: nat)
    requires a < b <= |script| && lastOld <= OldPos(script, a) && lastNew <= NewPos(script, a)
    requires OldSide(script[a..b]) == [] ==> lastOld == 0
    requires NewSide(script[a..b]) == [] ==> lastNew == 0
    ensures var lines := Entries(script, a, b);
      var olds, news := OldNumbers(lines), NewNumbers(lines);
      && (olds != [] || news != [])
      && Hunk(StartOf(olds, lastOld), |olds|, StartOf(news, lastNew), |news|, Printed(lines)) == HunkOf(script, a, b)
      && MaxOf(olds, lastOld) == (if OldSide(script[a..b]) == [] then lastOld else OldPos(script, b))
      && MaxOf(news, lastNew) == (if NewSide(script[a..b]) == [] then lastNew else NewPos(script, b))
  {
    hide OldPos, NewPos, Entries, OldNumbers, NewNumbers, MaxOf, Printed, OldSide, NewSide;
    SideCounts(script, a, b);
    PosStep(script, a);
    OldEntriesNumbers(script, a, b);
    NewEntriesNumbers(script, a, b);
    OldEntriesNumbers(script, a + 1, b);
    NewEntriesNumbers(script, a + 1, b);
    PrintedEntries(script, a, b);
    MaxOfConsecutive(OldPos(script, a) + 1, OldPos(script, b) - OldPos(script, a), lastOld);
    MaxOfConsecutive(NewPos(script, a) + 1, NewPos(script, b) - NewPos(script, a), lastNew);
  }

  /** An equal line gives both sides something. */
  lemma EqualOnBothSides(script: seq<Change>, a: nat, p: nat, b: nat)
    requires a <= p < b <= |script| && script[p].Equal?
    ensures OldSide(script[a..b]) != [] && NewSide(script[a..b]) != []
  {
    SideCounts(script, a, p);
    PosStep(script, p);
    SideCounts(script, p + 1, b);
    SideCounts(script, a, b);
  }

  /** A closed span extends the list. */
  lemma SpansSnoc(script: seq<Change>, context: nat, spans: seq<(nat, nat)>, a: nat, e: nat, b: nat, upto: nat)
    requires a < e <= b <= upto <= |script|
    requires SpansUpTo(script, context, spans, a) && (spans != [] ==> End(spans) < a)
    requires IsSpan(script, context, a, b) && AllEqual(script, e, upto)
    ensures SpansUpTo(script, context, spans + [(a, b)], upto)
  {
    var more := spans + [(a, b)];
    forall p | 0 <= p < upto && !script[p].Equal?
      ensures InSpans(more, p)
    {
      if p < a {
        var k :| 0 <= k < |spans| && spans[k].0 <= p < spans[k].1;
        assert more[k].0 <= p < more[k].1;
      } else {
        assert more[|spans|].0 <= p < more[|spans|].1;
      }
    }
    hide IsSpan;
    forall k, l | 0 <= k < l < |more|
      ensures more[k].1 < more[l].0
    {
      if l == |spans| && k < |spans| - 1 {
        assert spans[k].1 < spans[|spans| - 1].0;
        assert IsSpan(script, context, spans[|spans| - 1].0, spans[|spans| - 1].1);
      }
    }
  }

  /** Up to `context` equal lines behind the last change belong to the span, and no more. */
  lemma SpanCloses(script: seq<Change>, context: nat, i: nat, a: nat, e: nat, b: nat)
    requires a < e <= b <= i <= |script| && b == e + Min(i - e, context)
    requires !script[e - 1].Equal? && AllEqual(script, e, i)
    requires i == |script| || i == e + 2 * context + 1
    requires a > 0 ==> !Covered(script, context, a - 1)
    requires forall p :: a <= p < e ==> Covered(script, context, p)
    ensures IsSpan(script, context, a, b)
  {
    forall p | e <= p < b
      ensures Covered(script, context, p)
    {
      assert !script[e - 1].Equal?;
    }
  }

  /** What holds when a hunk is about to be printed: `2 * context + 1` equal lines, or the end. */
  ghost predicate Flushable(script: seq<Change>, context: nat, st: State, i: nat, spans: seq<(nat, nat)>, a: nat, e: nat) {
    && context >= 1 && a < e <= i <= |script| && (i == |script| || i == e + 2 * context + 1)
    && (spans != [] ==> End(spans) < a)
    && !script[e - 1].Equal? && AllEqual(script, e, i)
    && (a > 0 ==> !Covered(script, context, a - 1))
    && (forall p :: a <= p < e ==> Covered(script, context, p))
    && st.cur == Entries(script, a, e) && st.run == Entries(script, e, i)
    && End(spans) <= |script| && st.lastOld == OldPos(script, End(spans)) && st.lastNew == NewPos(script, End(spans))
  }

  /** What printing it does: one more hunk, and the latest equal lines become the prefix. */
  ghost predicate Flushed(script: seq<Change>, context: nat, st: State, i: nat, a: nat, e: nat, st': State)
    requires a < e <= i <= |script|
  {
    var b := e + Min(i - e, context);
    && IsSpan(script, context, a, b)
    && st'.cur == [] && st'.run == [] && !st'.inHunk && st'.oldNo == st.oldNo && st'.newNo == st.newNo
    && st'.out == st.out + [HunkOf(script, a, b)]
    && st'.prefix == Entries(script, if i - e <= context then e else i - context, i)
    && (b > e ==> st'.lastOld == OldPos(script, b) && st'.lastNew == NewPos(script, b))
  }

  /** Prints the current hunk; `i` lines have been read, the last change is just before `e`. */
  method Flush(context: nat, st: State, ghost script: seq<Change>, ghost i: nat, ghost spans: seq<(nat, nat)>, ghost a: nat, ghost e: nat)
      returns (st': State)
    ensures Flushable(script, context, st, i, spans, a, e) ==> Flushed(script, context, st, i, a, e, st')
  {
    var hunk, prefix, lastOld, lastNew := FlushHunk(st.cur, st.run, st.prefix, context, st.lastOld, st.lastNew);
    st' := st.(cur := [], run := [], prefix := prefix, inHunk := false, lastOld := lastOld, lastNew := lastNew,
               out := st.out + if hunk.Some? then [hunk.value] else []);
    hide FlushEffect, Flushable, Flushed;
    if Flushable(script, context, st, i, spans, a, e) {
      FlushOutcome(script, context, st, i, spans, a, e, hunk, prefix, lastOld, lastNew);
    }
  }

  lemma FlushOutcome(script: seq<Change>, context: nat, st: State, i: nat, spans: seq<(nat, nat)>, a: nat, e: nat,
                     hunk: Option<Hunk>, prefix: seq<EditLine>, lastOld: nat, lastNew: nat)
    requires Flushable(script, context, st, i, spans, a, e)
    requires FlushEffect(st.cur, st.run, st.prefix, context, st.lastOld, st.lastNew, hunk, prefix, lastOld, lastNew)
    ensures var st' := st.(cur := [], run := [], prefix := prefix, inHunk := false, lastOld := lastOld, lastNew := lastNew,
                           out := st.out + if hunk.Some? then [hunk.value] else []);
      Flushed(script, context, st, i, a, e, st')
  {
    hide OldPos, NewPos, OldSide, NewSide, OldNumbers, NewNumbers, Printed, MaxOf, StartOf, IsSpan, HunkOf, Entries, Covered, AllEqual;
    var b := e + Min(i - e, context);
    FlushPrepared(script, context, st, i, spans, a, e, b);
    EntriesSlices(script, a, e, i, b, context);
    FlushedHunk(script, a, b, st.lastOld, st.lastNew);
  }

  lemma FlushPrepared(script: seq<Change>, context: nat, st: State, i: nat, spans: seq<(nat, nat)>, a: nat, e: nat, b: nat)
    requires Flushable(script, context, st, i, spans, a, e) && b == e + Min(i - e, context)
    ensures IsSpan(script, context, a, b)
    ensures st.lastOld <= OldPos(script, a) && st.lastNew <= NewPos(script, a)
    ensures OldSide(script[a..b]) == [] ==> st.lastOld == 0 && b == e
    ensures NewSide(script[a..b]) == [] ==> st.lastNew == 0 && b == e
  {
    hide OldPos, NewPos, OldSide, NewSide, IsSpan, Entries, Covered;
    SpanCloses(script, context, i, a, e, b);
    if b > e { EqualOnBothSides(script, a, e, b); }
    ZeroCountMeansEmptySide(script, context, a, b);
    FlushStart(script, spans, a);
  }

  /** Line numbers only grow, and the first hunk starts from none. */
  lemma FlushStart(script: seq<Change>, spans: seq<(nat, nat)>, a: nat)
    requires a <= |script| && (spans != [] ==> End(spans) < a)
    ensures OldPos(script, End(spans)) <= OldPos(script, a) && NewPos(script, End(spans)) <= NewPos(script, a)
    ensures a == 0 ==> OldPos(script, End(spans)) == 0 && NewPos(script, End(spans)) == 0
  {
    SideCounts(script, End(spans), a);
  }

  lemma EntriesSlices(script: seq<Change>, a: nat, e: nat, i: nat, b: nat, context: nat)
    requires a <= e <= b <= i <= |script| && b == e + Min(i - e, context)
    ensures var run := Entries(script, e, i);
      && Entries(script, a, e) + run[..Min(|run|, context)] == Entries(script, a, b)
      && (|run| > context ==> run[|run| - context..] == Entries(script, i - context, i))
  {
    hide OldPos, NewPos, Numbered;
    var run := Entries(script, e, i);
    assert run[..b - e] == Entries(script, e, b);
    EntriesJoin(script, a, e, b);
  }

  /** An equal line: trailing context inside a hunk, rolling prefix outside. */
  method StepEqual(context: nat, st: State, text: Line, ghost script: seq<Change>, ghost i: nat, ghost spans: seq<(nat, nat)>, ghost a: nat, ghost e: nat)
      returns (st': State, ghost spans': seq<(nat, nat)>)
    requires i < |script| && script[i] == Equal(text)
    ensures context >= 1 && Inv(script, context, i, st, spans, a, e) ==> Inv(script, context, i + 1, st', spans', a, e)
  {
    hide Inv, Flushable, Flushed;
    var entry := Context(st.oldNo, st.newNo, text);
    st', spans' := st.(oldNo := st.oldNo + 1, newNo := st.newNo + 1), spans;
    if st.inHunk {
      st' := st'.(run := st.run + [entry]);
      if |st'.run| > 2 * context {
        ghost var before := st';
        st' := Flush(context, st', script, i + 1, spans, a, e);
        spans' := spans + [(a, e + context)];
        if context >= 1 && Inv(script, context, i, st, spans, a, e) {
          LongRun(script, context, i, st, spans, a, e, before, st');
        }
      } else if context >= 1 && Inv(script, context, i, st, spans, a, e) {
        ShortRun(script, context, i, st, spans, a, e);
      }
    } else {
      var prefix := st.prefix;
      if |prefix| == context && prefix != [] { prefix := prefix[1..]; }
      st' := st'.(prefix := prefix + [entry]);
      if context >= 1 && Inv(script, context, i, st, spans, a, e) {
        RollPrefix(script, context, i, st, spans, a, e);
      }
    }
  }

  lemma EntriesSnoc(script: seq<Change>, a: nat, i: nat)
    requires a <= i < |script|
    ensures Entries(script, a, i) + [Numbered(script, i)] == Entries(script, a, i + 1)
  {
    hide OldPos, NewPos, Numbered;
  }

  lemma ShortRun(script: seq<Change>, context: nat, i: nat, st: State, spans: seq<(nat, nat)>, a: nat, e: nat)
    requires i < |script| && script[i].Equal? && st.inHunk && |st.run| < 2 * context
    requires Inv(script, context, i, st, spans, a, e)
    ensures var st' := st.(oldNo := st.oldNo + 1, newNo := st.newNo + 1,
                           run := st.run + [Context(st.oldNo, st.newNo, script[i].text)]);
      Inv(script, context, i + 1, st', spans, a, e)
  {
    hide OldPos, NewPos, Covered, SpansUpTo, AreHunksOf, Entries;
    PosStep(script, i);
    EntriesSnoc(script, e, i);
  }

  lemma RollPrefix(script: seq<Change>, context: nat, i: nat, st: State, spans: seq<(nat, nat)>, a: nat, e: nat)
    requires i < |script| && script[i].Equal? && !st.inHunk && context >= 1
    requires Inv(script, context, i, st, spans, a, e)
    ensures var kept := if |st.prefix| == context then st.prefix[1..] else st.prefix;
      var st' := st.(oldNo := st.oldNo + 1, newNo := st.newNo + 1,
                     prefix := kept + [Context(st.oldNo, st.newNo, script[i].text)]);
      Inv(script, context, i + 1, st', spans, a, e)
  {
    hide OldPos, NewPos, AreHunksOf, IsSpan, InSpans;
    PosStep(script, i);
    var l := Lead(i, context);
    EntriesSnoc(script, l, i);
    if i - l == context {
      assert Entries(script, l, i + 1)[1..] == Entries(script, l + 1, i + 1);
      assert (st.prefix + [Numbered(script, i)])[1..] == st.prefix[1..] + [Numbered(script, i)];
    }
  }

  /** The run has become too long to bridge: the hunk is closed in the middle of it. */
  lemma LongRun(script: seq<Change>, context: nat, i: nat, st: State, spans: seq<(nat, nat)>, a: nat, e: nat, before: State, after: State)
    requires i < |script| && script[i].Equal? && st.inHunk && |st.run| >= 2 * context && context >= 1
    requires Inv(script, context, i, st, spans, a, e)
    requires before == st.(oldNo := st.oldNo + 1, newNo := st.newNo + 1,
                           run := st.run + [Context(st.oldNo, st.newNo, script[i].text)])
    requires Flushable(script, context, before, i + 1, spans, a, e) ==> Flushed(script, context, before, i + 1, a, e, after)
    ensures Inv(script, context, i + 1, after, spans + [(a, e + context)], a, e)
  {
    hide OldPos, NewPos, Covered, Entries, IsSpan, HunkOf, InSpans;
    PosStep(script, i);
    EntriesSnoc(script, e, i);
    SpansSnoc(script, context, spans, a, e, e + context, i + 1);
  }

  /** A removed or added line: opens a hunk with the prefix, or bridges the run of equal lines. */
  method StepChange(context: nat, st: State, change: Change, ghost script: seq<Change>, ghost i: nat, ghost spans: seq<(nat, nat)>, ghost a: nat, ghost e: nat)
      returns (st': State, ghost a': nat, ghost e': nat)
    requires i < |script| && script[i] == change && !change.Equal?
    ensures Inv(script, context, i, st, spans, a, e) ==> Inv(script, context, i + 1, st', spans, a', e')
  {
    var entry;
    if change.Delete? {
      entry := Removed(st.oldNo, change.text);
      st' := st.(oldNo := st.oldNo + 1);
    } else {
      entry := Added(st.newNo, change.text);
      st' := st.(newNo := st.newNo + 1);
    }
    a', e' := a, i + 1;
    if !st.inHunk {
      st' := st'.(cur := st'.cur + st'.prefix, prefix := [], inHunk := true);
      a' := Lead(i, context);
    }
    if st'.run != [] { st' := st'.(cur := st'.cur + st'.run, run := []); }
    st' := st'.(cur := st'.cur + [entry]);
    hide Inv;
    if Inv(script, context, i, st, spans, a, e) {
      InvNumbers(script, context, i, st, spans, a, e);
      ChangeNumbers(script, i, st, change);
      hide OldPos, NewPos, Numbered;
      if st.inHunk {
        BridgeRun(script, context, i, st, spans, a, e, st');
      } else {
        OpenHunk(script, context, i, st, spans, a, e, st');
      }
    }
  }

  lemma InvNumbers(script: seq<Change>, context: nat, i: nat, st: State, spans: seq<(nat, nat)>, a: nat, e: nat)
    requires Inv(script, context, i, st, spans, a, e)
    ensures i <= |script| && st.oldNo == OldPos(script, i) + 1 && st.newNo == NewPos(script, i) + 1
  {
  }

  /** The line number of a change, and the numbers after it. */
  lemma ChangeNumbers(script: seq<Change>, i: nat, st: State, change: Change)
    requires i < |script| && script[i] == change && !change.Equal?
    requires st.oldNo == OldPos(script, i) + 1 && st.newNo == NewPos(script, i) + 1
    ensures Numbered(script, i) == if change.Delete? then Removed(st.oldNo, change.text) else Added(st.newNo, change.text)
    ensures OldPos(script, i + 1) + 1 == (if change.Delete? then st.oldNo + 1 else st.oldNo)
    ensures NewPos(script, i + 1) + 1 == (if change.Delete? then st.newNo else st.newNo + 1)
  {
    PosStep(script, i);
  }

  lemma BridgeRun(script: seq<Change>, context: nat, i: nat, st: State, spans: seq<(nat, nat)>, a: nat, e: nat, after: State)
    requires i < |script| && !script[i].Equal? && st.inHunk && Inv(script, context, i, st, spans, a, e)
    requires after.oldNo == OldPos(script, i + 1) + 1 && after.newNo == NewPos(script, i + 1) + 1
    requires after == st.(oldNo := after.oldNo, newNo := after.newNo, run := [],
                          cur := (if st.run != [] then st.cur + st.run else st.cur) + [Numbered(script, i)])
    ensures Inv(script, context, i + 1, after, spans, a, i + 1)
  {
    hide OldPos, NewPos, SpansUpTo, AreHunksOf, Numbered;
    EntriesJoin(script, a, e, i);
    EntriesSnoc(script, a, i);
    hide Entries;
    forall p | e <= p <= i
      ensures Covered(script, context, p)
    {
      if p - context <= e - 1 { assert !script[e - 1].Equal?; } else { assert !script[i].Equal?; }
    }
  }

  lemma OpenHunk(script: seq<Change>, context: nat, i: nat, st: State, spans: seq<(nat, nat)>, a: nat, e: nat, after: State)
    requires i < |script| && !script[i].Equal? && !st.inHunk && Inv(script, context, i, st, spans, a, e)
    requires after.oldNo == OldPos(script, i + 1) + 1 && after.newNo == NewPos(script, i + 1) + 1
    requires after == st.(oldNo := after.oldNo, newNo := after.newNo, run := [], prefix := [], inHunk := true,
                          cur := (if st.run != [] then st.cur + st.prefix + st.run else st.cur + st.prefix) + [Numbered(script, i)])
    ensures Inv(script, context, i + 1, after, spans, Lead(i, context), i + 1)
  {
    hide OldPos, NewPos, AreHunksOf, Numbered, IsSpan, InSpans;
    EntriesSnoc(script, Lead(i, context), i);
    assert st.cur + st.prefix == st.prefix;
    hide Entries;
    assert forall p :: Lead(i, context) <= p <= i ==> Covered(script, context, p);
  }

  /**
   Assembles the hunks. With at least one line of context they are the hunks of the covered
   stretches of the script, one each and in order.
   */
  method ComputeUnifiedDiff(script: seq<Change>, context: nat) returns (hunks: seq<Hunk>, ghost spans: seq<(nat, nat)>)
    ensures context >= 1 ==> Spans(script, context, spans) && AreHunksOf(hunks, script, spans)
    ensures context >= 1 ==> IsDiff(script, context, hunks)
  {
    var st := State([], [], [], false, 0, 0, 1, 1, []);
    spans := [];
    ghost var a: nat, e: nat := 0, 0;
    hide Inv, Spans, AreHunksOf, Flushable, Flushed;
    InvStart(script, context, st);
    for i := 0 to |script|
      invariant context >= 1 ==> Inv(script, context, i, st, spans, a, e)
    {
      if script[i].Equal? {
        st, spans := StepEqual(context, st, script[i].text, script, i, spans, a, e);
      } else {
        st, a, e := StepChange(context, st, script[i], script, i, spans, a, e);
      }
    }
    hunks, spans := FlushRest(context, st, script, spans, a, e);
  }

  /** The hunks are those of the covered stretches of the script. */
  ghost predicate IsDiff(script: seq<Change>, context: nat, hunks: seq<Hunk>) {
    exists spans :: Spans(script, context, spans) && AreHunksOf(hunks, script, spans)
  }

  /** At the end of the script a hunk that is still open is printed. */
  method FlushRest(context: nat, st: State, ghost script: seq<Change>, ghost spans: seq<(nat, nat)>, ghost a: nat, ghost e: nat)
      returns (hunks: seq<Hunk>, ghost spans': seq<(nat, nat)>)
    ensures context >= 1 && Inv(script, context, |script|, st, spans, a, e) ==>
      Spans(script, context, spans') && AreHunksOf(hunks, script, spans')
  {
    hide Inv, Spans, AreHunksOf, Flushable, Flushed;
    hunks, spans' := st.out, spans;
    if st.inHunk {
      var st' := Flush(context, st, script, |script|, spans, a, e);
      hunks := st'.out;
      spans' := spans + [(a, if e <= |script| then e + Min(|script| - e, context) else 0)];
      if context >= 1 && Inv(script, context, |script|, st, spans, a, e) {
        LastHunk(script, context, st, spans, a, e, st');
      }
    } else if context >= 1 && Inv(script, context, |script|, st, spans, a, e) {
      NoMoreHunks(script, context, st, spans, a, e);
    }
  }

  lemma InvStart(script: seq<Change>, context: nat, st: State)
    requires st == State([], [], [], false, 0, 0, 1, 1, [])
    ensures Inv(script, context, 0, st, [], 0, 0)
  {
  }

  lemma LastHunk(script: seq<Change>, context: nat, before: State, spans: seq<(nat, nat)>, a: nat, e: nat, after: State)
    requires before.inHunk && Inv(script, context, |script|, before, spans, a, e) && context >= 1
    requires Flushable(script, context, before, |script|, spans, a, e) ==> Flushed(script, context, before, |script|, a, e, after)
    ensures e <= |script|
    ensures var more := spans + [(a, e + Min(|script| - e, context))];
      Spans(script, context, more) && AreHunksOf(after.out, script, more)
  {
    hide OldPos, NewPos, Covered, Entries, IsSpan, HunkOf, InSpans;
    SpansSnoc(script, context, spans, a, e, e + Min(|script| - e, context), |script|);
  }

  lemma NoMoreHunks(script: seq<Change>, context: nat, st: State, spans: seq<(nat, nat)>, a: nat, e: nat)
    requires !st.inHunk && Inv(script, context, |script|, st, spans, a, e)
    ensures Spans(script, context, spans) && AreHunksOf(st.out, script, spans)
  {
  }
}
