/**
 The strict applier in the test module of src/diff.rs, which says what a unified diff has to
 satisfy, and the proof that the assembled hunks satisfy it.
 */
module PatchApply {
  import opened Basics
  import opened UnifiedDiff

  // ---------------------------------------------------------------- the applier

  /** Reads a hunk body at old line `cursor`: context and removed lines must match. */
  function ApplyBody(oldLines: seq<Line>, body: seq<Change>, cursor: nat, out: seq<Line>): Option<(nat, seq<Line>)>
    decreases |body|
  {
    if body == [] then Some((cursor, out))
    else match body[0]
      case Equal(t) =>
        if cursor < |oldLines| && oldLines[cursor] == t then ApplyBody(oldLines, body[1..], cursor + 1, out + [t]) else None
      case Delete(t) =>
        if cursor < |oldLines| && oldLines[cursor] == t then ApplyBody(oldLines, body[1..], cursor + 1, out) else None
      case Insert(t) => ApplyBody(oldLines, body[1..], cursor, out + [t])
  }

  /**
   Applies the hunks from old line `cursor` on. Headers are checked against the positions reached
   on both sides and against what the body consumes and produces; a count of 0 names the line
   before the hunk.
   */
  function ApplyHunks(oldLines: seq<Line>, hunks: seq<Hunk>, cursor: nat, out: seq<Line>): Option<seq<Line>>
    requires cursor <= |oldLines|
    decreases |hunks|
  {
    if hunks == [] then Some(out + oldLines[cursor..])
    else
      var h := hunks[0];
      if (h.oldStart == 0 && h.oldCount != 0) || (h.newStart == 0 && h.newCount != 0) then None
      else
        var start := if h.oldCount == 0 then h.oldStart else h.oldStart - 1;
        if start < cursor || start > |oldLines| then None
        else
          var out' := out + oldLines[cursor..start];
          if h.newStart != (if h.newCount == 0 then |out'| else |out'| + 1) then None
          else match ApplyBody(oldLines, h.body, start, out')
            case None => None
            case Some((end, out'')) =>
              if end > |oldLines| || end - start != h.oldCount || |out''| - |out'| != h.newCount then None
              else ApplyHunks(oldLines, hunks[1..], end, out'')
  }

  function Apply(oldLines: seq<Line>, hunks: seq<Hunk>): Option<seq<Line>> {
    ApplyHunks(oldLines, hunks, 0, [])
  }

  // ---------------------------------------------------------------- applying what was assembled

  lemma {:induction false} BodyApplies(oldLines: seq<Line>, body: seq<Change>, cursor: nat, out: seq<Line>)
    requires cursor + |OldSide(body)| <= |oldLines|
    requires oldLines[cursor..cursor + |OldSide(body)|] == OldSide(body)
    ensures ApplyBody(oldLines, body, cursor, out) == Some((cursor + |OldSide(body)|, out + NewSide(body)))
    decreases |body|
  {
    if body == [] {
      assert out + [] == out;
    } else {
      var rest, t := body[1..], body[0].text;
      var o, n := OldSide(rest), NewSide(rest);
      SidesHead(body);
      hide OldSide, NewSide;
      ApplyOne(oldLines, body, cursor, out);
      hide ApplyBody;
      if body[0].Insert? {
        BodyApplies(oldLines, rest, cursor, out + [t]);
      } else {
        FirstLine(oldLines, t, o, cursor);
        BodyApplies(oldLines, rest, cursor + 1, if body[0].Equal? then out + [t] else out);
      }
      AppendLine(out, t, n);
    }
  }

  /** What the first line of a body does. */
  lemma ApplyOne(oldLines: seq<Line>, body: seq<Change>, cursor: nat, out: seq<Line>)
    requires body != []
    ensures ApplyBody(oldLines, body, cursor, out) ==
      if body[0].Insert? then ApplyBody(oldLines, body[1..], cursor, out + [body[0].text])
      else if cursor < |oldLines| && oldLines[cursor] == body[0].text
      then ApplyBody(oldLines, body[1..], cursor + 1, if body[0].Equal? then out + [body[0].text] else out) else None
  {
  }

  lemma AppendLine(out: seq<Line>, t: Line, n: seq<Line>)
    ensures out + [t] + n == out + ([t] + n)
  {
  }

  lemma FirstLine(oldLines: seq<Line>, t: Line, rest: seq<Line>, cursor: nat)
    requires cursor + 1 + |rest| <= |oldLines| && oldLines[cursor..cursor + 1 + |rest|] == [t] + rest
    ensures oldLines[cursor] == t && oldLines[cursor + 1..cursor + 1 + |rest|] == rest
  {
    assert oldLines[cursor] == oldLines[cursor..cursor + 1 + |rest|][0];
    SliceOfSlice(oldLines, cursor, cursor + 1 + |rest|, 1, 1 + |rest|);
    assert ([t] + rest)[1..1 + |rest|] == rest;
  }

  lemma SidesHead(s: seq<Change>)
    requires s != []
    ensures OldSide(s) == if s[0].Insert? then OldSide(s[1..]) else [s[0].text] + OldSide(s[1..])
    ensures NewSide(s) == if s[0].Delete? then NewSide(s[1..]) else [s[0].text] + NewSide(s[1..])
  {
  }

  /** Equal lines read the same on both sides. */
  lemma {:induction false} EqualLinesSame(s: seq<Change>)
    requires forall i :: 0 <= i < |s| ==> s[i].Equal?
    ensures OldSide(s) == NewSide(s)
  {
    if s != [] { EqualLinesSame(s[1..]); }
  }

  /**
   The hunk is a stretch of the script from position `a` on: its header gives the line it starts at
   and the number of lines on both sides, an empty side being named by the line before it.
   */
  ghost predicate IsHunkAt(script: seq<Change>, h: Hunk, a: nat) {
    && a + |h.body| <= |script| && h.body == script[a..a + |h.body|]
    && h.oldCount == |OldSide(h.body)| && h.newCount == |NewSide(h.body)|
    && h.oldStart == OldPos(script, a) + (if h.oldCount == 0 then 0 else 1)
    && h.newStart == NewPos(script, a) + (if h.newCount == 0 then 0 else 1)
  }

  /** A hunk of the script moves the applier from the end of the last one to its own end. */
  lemma HunkApplies(script: seq<Change>, from: nat, a: nat, h: Hunk, rest: seq<Hunk>)
    requires from <= a && IsHunkAt(script, h, a) && AllEqual(script, from, a)
    ensures OldPos(script, from) <= |OldSide(script)| && OldPos(script, a + |h.body|) <= |OldSide(script)|
    ensures ApplyHunks(OldSide(script), [h] + rest, OldPos(script, from), NewSide(script[..from]))
         == ApplyHunks(OldSide(script), rest, OldPos(script, a + |h.body|), NewSide(script[..a + |h.body|]))
  {
    hide OldSide, NewSide, OldPos, ApplyBody;
    var oldLines, b := OldSide(script), a + |h.body|;
    OldSlice(script, from, a);
    OldSlice(script, a, b);
    SideCounts(script, a, b);
    SidesSplit(script, from, a);
    SidesSplit(script, a, b);
    EqualLinesSame(script[from..a]);
    var out' := NewSide(script[..from]) + oldLines[OldPos(script, from)..OldPos(script, a)];
    assert out' == NewSide(script[..a]);
    BodyApplies(oldLines, script[a..b], OldPos(script, a), out');
    assert ([h] + rest)[1..] == rest && ([h] + rest)[0] == h;
  }

  /** The old lines of a stretch are where they should be. */
  lemma OldSlice(script: seq<Change>, i: nat, j: nat)
    requires i <= j <= |script|
    ensures OldPos(script, i) <= OldPos(script, j) <= |OldSide(script)|
    ensures OldSide(script)[OldPos(script, i)..OldPos(script, j)] == OldSide(script[i..j])
  {
    SidesSplit(script, i, j);
    SidesSplit(script, j, |script|);
    assert script[..|script|] == script;
    hide OldSide, NewSide;
    var x, y, z := OldSide(script[..i]), OldSide(script[i..j]), OldSide(script[j..|script|]);
    assert OldSide(script) == x + y + z;
    assert (x + y + z)[|x|..|x + y|] == y;
  }

  /** Between and around the spans there are only equal lines. */
  lemma GapsAreEqual(script: seq<Change>, context: nat, spans: seq<(nat, nat)>, k: nat)
    requires Spans(script, context, spans) && k <= |spans|
    ensures var from := if k == 0 then 0 else spans[k - 1].1;
      var to := if k == |spans| then |script| else spans[k].0;
      from <= to <= |script| && AllEqual(script, from, to)
  {
    if k < |spans| { assert IsSpan(script, context, spans[k].0, spans[k].1); }
    if k > 0 { assert IsSpan(script, context, spans[k - 1].0, spans[k - 1].1); }
    var from := if k == 0 then 0 else spans[k - 1].1;
    var to := if k == |spans| then |script| else spans[k].0;
    forall p | from <= p < to
      ensures script[p].Equal?
    {
      forall j | 0 <= j < |spans|
        ensures p < spans[j].0 || spans[j].1 <= p
      {
        assert IsSpan(script, context, spans[j].0, spans[j].1);
        if j < k - 1 { assert spans[j].1 < spans[k - 1].0; }
        if j > k { assert spans[k].1 < spans[j].0; }
      }
      assert !InSpans(spans, p);
    }
  }

  /** The hunks of the spans are what is left of the script when equal lines are skipped. */
  lemma {:induction false} HunksAreCut(script: seq<Change>, context: nat, spans: seq<(nat, nat)>, hunks: seq<Hunk>, k: nat)
    requires Spans(script, context, spans) && AreHunksOf(hunks, script, spans) && context >= 1
    requires OldSide(script) != [] && NewSide(script) != [] && k <= |spans|
    ensures CutFrom(script, hunks[k..], if k == 0 then 0 else spans[k - 1].1)
    decreases |spans| - k
  {
    hide OldSide, NewSide, IsHunkAt, HunkOf, IsSpan;
    GapsAreEqual(script, context, spans, k);
    if k == |spans| {
      assert hunks[k..] == [];
    } else {
      var (a, b) := spans[k];
      assert IsSpan(script, context, a, b);
      HunksAreCut(script, context, spans, hunks, k + 1);
      SpanIsHunk(script, context, a, b);
      assert hunks[k..][0] == HunkOf(script, a, b) && hunks[k..][1..] == hunks[k + 1..];
    }
  }

  lemma SpanIsHunk(script: seq<Change>, context: nat, a: nat, b: nat)
    requires IsSpan(script, context, a, b) && context >= 1 && OldSide(script) != [] && NewSide(script) != []
    ensures a <= b <= |script| && IsHunkAt(script, HunkOf(script, a, b), a) && a + |HunkOf(script, a, b).body| == b
  {
    ZeroCountMeansEmptySide(script, context, a, b);
    hide OldSide, NewSide, OldPos, NewPos;
  }

  lemma HunksApply(script: seq<Change>, context: nat, spans: seq<(nat, nat)>, hunks: seq<Hunk>, k: nat)
    requires Spans(script, context, spans) && AreHunksOf(hunks, script, spans) && context >= 1
    requires OldSide(script) != [] && NewSide(script) != [] && k <= |spans|
    ensures var from := if k == 0 then 0 else spans[k - 1].1;
      && from <= |script| && OldPos(script, from) <= |OldSide(script)|
      && ApplyHunks(OldSide(script), hunks[k..], OldPos(script, from), NewSide(script[..from])) == Some(NewSide(script))
  {
    hide OldSide, NewSide, ApplyHunks, CutFrom;
    HunksAreCut(script, context, spans, hunks, k);
    CutApplies(script, hunks[k..], if k == 0 then 0 else spans[k - 1].1);
  }

  lemma LastLines(script: seq<Change>, from: nat)
    requires from <= |script| && AllEqual(script, from, |script|)
    ensures OldPos(script, from) <= |OldSide(script)|
    ensures ApplyHunks(OldSide(script), [], OldPos(script, from), NewSide(script[..from])) == Some(NewSide(script))
  {
    OldSlice(script, from, |script|);
    SidesSplit(script, from, |script|);
    EqualLinesSame(script[from..|script|]);
    assert script[..|script|] == script;
    hide OldSide, NewSide;
    assert OldSide(script)[OldPos(script, from)..] == OldSide(script[from..|script|]);
  }

  /**
   The strict applier accepts the hunks and rebuilds the new lines exactly when neither side is
   empty or both are.
   */
  lemma RoundTrip(script: seq<Change>, context: nat, spans: seq<(nat, nat)>, hunks: seq<Hunk>)
    requires Spans(script, context, spans) && AreHunksOf(hunks, script, spans) && context >= 1
    ensures Apply(OldSide(script), hunks) == Some(NewSide(script))
       <==> (OldSide(script) == [] <==> NewSide(script) == [])
  {
    if OldSide(script) != [] && NewSide(script) != [] {
      HunksApply(script, context, spans, hunks, 0);
      assert script[..0] == [] && hunks[0..] == hunks;
    } else {
      EmptySide(script, context, spans, hunks);
      NoSideless(script);
    }
  }

  /** The assembler and the applier together: for every script the new lines come back, unless exactly one side is empty. */
  method DiffAndApply(script: seq<Change>, context: nat) returns (hunks: seq<Hunk>, rebuilt: Option<seq<Line>>)
    ensures context >= 1 ==> IsDiff(script, context, hunks)
    ensures context >= 1 ==> (rebuilt == Some(NewSide(script)) <==> (OldSide(script) == [] <==> NewSide(script) == []))
  {
    hide Spans, AreHunksOf, IsDiff, Apply, OldSide, NewSide;
    ghost var spans;
    hunks, spans := ComputeUnifiedDiff(script, context);
    rebuilt := Apply(OldSide(script), hunks);
    if context >= 1 { RoundTrip(script, context, spans, hunks); }
  }

  lemma NoSideless(script: seq<Change>)
    ensures script != [] ==> OldSide(script) != [] || NewSide(script) != []
  {
  }

  /** With one side empty there is one hunk, and its start is off by one for the applier. */
  lemma EmptySide(script: seq<Change>, context: nat, spans: seq<(nat, nat)>, hunks: seq<Hunk>)
    requires Spans(script, context, spans) && AreHunksOf(hunks, script, spans) && context >= 1
    requires OldSide(script) == [] || NewSide(script) == []
    ensures script == [] ==> hunks == [] && Apply(OldSide(script), hunks) == Some(NewSide(script))
    ensures script != [] ==>
      hunks == [Hunk(1, |OldSide(script)|, 1, |NewSide(script)|, script)] && Apply(OldSide(script), hunks) == None
  {
    NoSideless(script);
    if script == [] {
      NoSpans(script, context, spans);
      var none: seq<Line> := [];
      assert OldSide(script) == none && NewSide(script) == none && none + none[0..] == none && hunks == [];
    } else {
      hide Spans;
      WholeSpan(script, context, spans);
      WholeHunk(script);
      assert hunks == [HunkOf(script, 0, |script|)];
      FirstLineRefused(OldSide(script), hunks);
    }
  }

  lemma WholeHunk(script: seq<Change>)
    ensures HunkOf(script, 0, |script|) == Hunk(1, |OldSide(script)|, 1, |NewSide(script)|, script)
  {
    assert script[..0] == [] && script[0..|script|] == script;
  }

  /** A side without lines must not be said to start at line 1. */
  lemma FirstLineRefused(oldLines: seq<Line>, hunks: seq<Hunk>)
    requires |hunks| == 1 && hunks[0].oldStart == 1 && hunks[0].newStart == 1
    requires if hunks[0].oldCount == 0 then oldLines == [] else hunks[0].newCount == 0
    ensures Apply(oldLines, hunks) == None
  {
    hide ApplyBody;
  }

  lemma NoSpans(script: seq<Change>, context: nat, spans: seq<(nat, nat)>)
    requires Spans(script, context, spans) && script == []
    ensures spans == []
  {
    assert |spans| > 0 ==> IsSpan(script, context, spans[0].0, spans[0].1);
  }

  lemma WholeSpan(script: seq<Change>, context: nat, spans: seq<(nat, nat)>)
    requires Spans(script, context, spans) && script != [] && context >= 1
    requires OldSide(script) == [] || NewSide(script) == []
    ensures |spans| == 1 && spans[0] == (0, |script|)
  {
    NoEquals(script);
    assert InSpans(spans, 0);
    var (a, b) := spans[0];
    assert IsSpan(script, context, a, b);
    if |spans| > 1 { assert IsSpan(script, context, spans[1].0, spans[1].1) && b < spans[1].0; }
    hide IsSpan, OldSide, NewSide, OldPos, NewPos, InSpans, SpansUpTo;
    OldSlice(script, a, b);
    SideCounts(script, a, b);
    SideCounts(script, b, |script|);
    assert script[..|script|] == script;
    NewTotal(script);
    ZeroCountMeansEmptySide(script, context, a, b);
  }

  lemma NewTotal(script: seq<Change>)
    ensures NewPos(script, |script|) == |NewSide(script)|
  {
    assert script[..|script|] == script;
  }

  // ---------------------------------------------------------------- what the applier accepts

  /** From `from` on the script is equal lines and the hunks, in order. */
  ghost predicate CutFrom(script: seq<Change>, hunks: seq<Hunk>, from: nat)
    decreases |hunks|
  {
    if hunks == [] then from <= |script| && AllEqual(script, from, |script|)
    else exists a: nat {:trigger IsHunkAt(script, hunks[0], a)} ::
      && from <= a && IsHunkAt(script, hunks[0], a) && AllEqual(script, from, a)
      && CutFrom(script, hunks[1..], a + |hunks[0].body|)
  }

  lemma {:induction false} CutApplies(script: seq<Change>, hunks: seq<Hunk>, from: nat)
    requires CutFrom(script, hunks, from)
    ensures from <= |script| && OldPos(script, from) <= |OldSide(script)|
    ensures ApplyHunks(OldSide(script), hunks, OldPos(script, from), NewSide(script[..from])) == Some(NewSide(script))
    decreases |hunks|
  {
    hide OldSide, NewSide, ApplyHunks, OldPos, NewPos;
    if hunks == [] {
      LastLines(script, from);
    } else {
      var h, rest := hunks[0], hunks[1..];
      var a: nat :| from <= a && IsHunkAt(script, h, a) && AllEqual(script, from, a) && CutFrom(script, rest, a + |h.body|);
      CutApplies(script, rest, a + |h.body|);
      HunkApplies(script, from, a, h, rest);
      assert hunks == [h] + rest;
    }
  }

  /** A body that was accepted consumed its old side and produced its new one. */
  lemma {:induction false} BodyAccepted(oldLines: seq<Line>, body: seq<Change>, cursor: nat, out: seq<Line>)
    requires cursor <= |oldLines| && ApplyBody(oldLines, body, cursor, out).Some?
    ensures cursor + |OldSide(body)| <= |oldLines|
    ensures oldLines[cursor..cursor + |OldSide(body)|] == OldSide(body)
    ensures ApplyBody(oldLines, body, cursor, out) == Some((cursor + |OldSide(body)|, out + NewSide(body)))
    decreases |body|
  {
    if body == [] {
      BodyApplies(oldLines, body, cursor, out);
    } else {
      hide OldSide, NewSide, ApplyBody;
      var rest, t := body[1..], body[0].text;
      SidesHead(body);
      ApplyOne(oldLines, body, cursor, out);
      if body[0].Insert? {
        BodyAccepted(oldLines, rest, cursor, out + [t]);
      } else {
        BodyAccepted(oldLines, rest, cursor + 1, if body[0].Equal? then out + [t] else out);
        var end := cursor + 1 + |OldSide(rest)|;
        assert oldLines[cursor..end] == [oldLines[cursor]] + oldLines[cursor + 1..end];
      }
      BodyApplies(oldLines, body, cursor, out);
    }
  }

  ghost function Unchanged(lines: seq<Line>): (s: seq<Change>)
    ensures |s| == |lines| && forall i :: 0 <= i < |s| ==> s[i] == Equal(lines[i])
  {
    seq(|lines|, i requires 0 <= i < |lines| => Equal(lines[i]))
  }

  lemma {:induction false} UnchangedSides(lines: seq<Line>)
    ensures OldSide(Unchanged(lines)) == lines && NewSide(Unchanged(lines)) == lines
  {
    if lines != [] {
      UnchangedSides(lines[1..]);
      assert Unchanged(lines)[1..] == Unchanged(lines[1..]);
    }
  }

  /** `p` is a script for what has been consumed and produced so far. */
  ghost predicate ScriptSoFar(p: seq<Change>, oldLines: seq<Line>, cursor: nat, out: seq<Line>) {
    cursor <= |oldLines| && OldSide(p) == oldLines[..cursor] && NewSide(p) == out
  }

  lemma MoreUnchanged(p: seq<Change>, oldLines: seq<Line>, cursor: nat, out: seq<Line>, upto: nat)
    requires ScriptSoFar(p, oldLines, cursor, out) && cursor <= upto <= |oldLines|
    ensures ScriptSoFar(p + Unchanged(oldLines[cursor..upto]), oldLines, upto, out + oldLines[cursor..upto])
  {
    hide OldSide, NewSide;
    var gap := oldLines[cursor..upto];
    UnchangedSides(gap);
    OldSideConcat(p, Unchanged(gap));
    NewSideConcat(p, Unchanged(gap));
    assert oldLines[..cursor] + gap == oldLines[..upto];
  }

  lemma MoreBody(p: seq<Change>, oldLines: seq<Line>, cursor: nat, out: seq<Line>, body: seq<Change>)
    requires ScriptSoFar(p, oldLines, cursor, out) && ApplyBody(oldLines, body, cursor, out).Some?
    ensures var (end, out') := ApplyBody(oldLines, body, cursor, out).value;
      ScriptSoFar(p + body, oldLines, end, out') && end == cursor + |OldSide(body)| && |out'| == |out| + |NewSide(body)|
  {
    BodyAccepted(oldLines, body, cursor, out);
    hide OldSide, NewSide;
    OldSideConcat(p, body);
    NewSideConcat(p, body);
    assert oldLines[..cursor] + oldLines[cursor..cursor + |OldSide(body)|] == oldLines[..cursor + |OldSide(body)|];
  }

  /** What one accepted hunk says about the script. */
  lemma HunkAccepted(script: seq<Change>, p: seq<Change>, gap: seq<Change>, h: Hunk, oldLines: seq<Line>, start: nat, out: seq<Line>)
    requires p + gap + h.body <= script && ScriptSoFar(p + gap, oldLines, start, out)
    requires h.oldCount == |OldSide(h.body)| && h.newCount == |NewSide(h.body)|
    requires h.oldStart == start + (if h.oldCount == 0 then 0 else 1) && h.newStart == |out| + (if h.newCount == 0 then 0 else 1)
    requires forall i :: 0 <= i < |gap| ==> gap[i].Equal?
    ensures IsHunkAt(script, h, |p| + |gap|) && AllEqual(script, |p|, |p| + |gap|)
  {
    var a := |p| + |gap|;
    assert script[..a] == p + gap && script[a..a + |h.body|] == h.body;
    forall i | |p| <= i < a ensures script[i].Equal? { assert script[i] == gap[i - |p|]; }
  }

  /** Hunks that were accepted are cut from a script that begins with what was applied before. */
  lemma {:induction false} AcceptedIsCut(p: seq<Change>, oldLines: seq<Line>, hunks: seq<Hunk>, cursor: nat, out: seq<Line>)
      returns (script: seq<Change>)
    requires ScriptSoFar(p, oldLines, cursor, out) && ApplyHunks(oldLines, hunks, cursor, out).Some?
    ensures p <= script && OldSide(script) == oldLines && Some(NewSide(script)) == ApplyHunks(oldLines, hunks, cursor, out)
    ensures CutFrom(script, hunks, |p|)
    decreases |hunks|
  {
    hide OldSide, NewSide, ApplyBody, IsHunkAt;
    if hunks == [] {
      MoreUnchanged(p, oldLines, cursor, out, |oldLines|);
      var gap := Unchanged(oldLines[cursor..]);
      script := p + gap;
      assert oldLines[cursor..|oldLines|] == oldLines[cursor..] && oldLines[..|oldLines|] == oldLines;
      forall i | |p| <= i < |script| ensures script[i].Equal? { assert script[i] == gap[i - |p|]; }
    } else {
      var h, rest := hunks[0], hunks[1..];
      var start: nat := if h.oldCount == 0 then h.oldStart else h.oldStart - 1;
      var out' := out + oldLines[cursor..start];
      var gap := Unchanged(oldLines[cursor..start]);
      MoreUnchanged(p, oldLines, cursor, out, start);
      MoreBody(p + gap, oldLines, start, out', h.body);
      var (end, out'') := ApplyBody(oldLines, h.body, start, out').value;
      script := AcceptedIsCut(p + gap + h.body, oldLines, rest, end, out'');
      HunkAccepted(script, p, gap, h, oldLines, start, out');
      assert p <= p + gap + h.body <= script;
      assert |p + gap + h.body| == |p| + |gap| + |h.body|;
    }
  }

  /**
   The strict applier accepts exactly the patches that are cut from an edit script between the two
   texts: hunks in order, headers true on both sides, and only equal lines left out.
   */
  lemma AcceptedIff(oldLines: seq<Line>, hunks: seq<Hunk>, newLines: seq<Line>)
    ensures Apply(oldLines, hunks) == Some(newLines)
       <==> exists script :: OldSide(script) == oldLines && NewSide(script) == newLines && CutFrom(script, hunks, 0)
  {
    hide CutFrom, ApplyHunks;
    if Apply(oldLines, hunks) == Some(newLines) {
      assert oldLines[..0] == [];
      var script := AcceptedIsCut([], oldLines, hunks, 0, []);
    }
    if exists script :: OldSide(script) == oldLines && NewSide(script) == newLines && CutFrom(script, hunks, 0) {
      var script :| OldSide(script) == oldLines && NewSide(script) == newLines && CutFrom(script, hunks, 0);
      CutApplies(script, hunks, 0);
      assert script[..0] == [];
    }
  }

  // ---------------------------------------------------------------- shape of the hunks

  /** A stretch begins and ends with at most `context` equal lines. */
  lemma ContextBounded(script: seq<Change>, context: nat, a: nat, b: nat)
    requires IsSpan(script, context, a, b)
    ensures exists c :: a <= c < b && c <= a + context && !script[c].Equal?
    ensures exists c :: a <= c < b && b - 1 <= c + context && !script[c].Equal?
  {
    assert Covered(script, context, a) && Covered(script, context, b - 1);
    var c :| 0 <= c < |script| && !script[c].Equal? && a - context <= c <= a + context;
    FirstAndLast(script, context, a, b, c);
    var d :| 0 <= d < |script| && !script[d].Equal? && b - 1 - context <= d <= b - 1 + context;
    FirstAndLast(script, context, a, b, d);
  }

  lemma FirstAndLast(script: seq<Change>, context: nat, a: nat, b: nat, c: nat)
    requires IsSpan(script, context, a, b) && c < |script| && !script[c].Equal?
    requires a - context <= c <= a + context || b - 1 - context <= c <= b - 1 + context
    ensures a <= c < b
  {
    assert Covered(script, context, c);
    assert c < a ==> Covered(script, context, a - 1);
    assert c >= b ==> Covered(script, context, b);
  }

  /** Two changes with only equal lines between them share a hunk exactly when `2 * context` or fewer separate them. */
  lemma SplitIffGapTooLong(script: seq<Change>, context: nat, spans: seq<(nat, nat)>, c: nat, d: nat)
    requires Spans(script, context, spans)
    requires c < d < |script| && !script[c].Equal? && !script[d].Equal? && AllEqual(script, c + 1, d)
    ensures (exists k :: 0 <= k < |spans| && spans[k].0 <= c < spans[k].1 && spans[k].0 <= d < spans[k].1)
       <==> d - c - 1 <= 2 * context
  {
    assert InSpans(spans, c) && InSpans(spans, d);
    var k :| 0 <= k < |spans| && spans[k].0 <= c < spans[k].1;
    assert IsSpan(script, context, spans[k].0, spans[k].1);
    if d - c - 1 <= 2 * context {
      GapCovered(script, context, spans[k].0, spans[k].1, c, d);
    } else {
      var l :| 0 <= l < |spans| && spans[l].0 <= d < spans[l].1;
      assert !Covered(script, context, c + context + 1);
      forall m | 0 <= m < |spans|
        ensures !(spans[m].0 <= c < spans[m].1 && spans[m].0 <= d < spans[m].1)
      {
        assert IsSpan(script, context, spans[m].0, spans[m].1);
      }
    }
  }

  lemma GapCovered(script: seq<Change>, context: nat, a: nat, b: nat, c: nat, d: nat)
    requires IsSpan(script, context, a, b) && a <= c < b && c < d < |script| && d - c - 1 <= 2 * context
    requires !script[c].Equal? && !script[d].Equal?
    ensures a <= d < b
  {
    assert c < b <= d ==> Covered(script, context, b) by {
      if b <= c + context { assert !script[c].Equal?; } else { assert !script[d].Equal?; }
    }
  }
}
