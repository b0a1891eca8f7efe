/** The split of a language-model answer into the reasoning trace the model wrapped in
    `<think>` ... `</think>` and the answer shown to the user (main.py, lines 50-53). */
module ThinkSplit {
  import opened Strings

  const ThinkOpen: string := "<think>"
  const ThinkClose: string := "</think>"

  /** `clean` is `clean_answer`, `think` is `think_content`. */
  datatype Answer = Answer(clean: string, think: string)

  /** The replace target built from the extracted trace. */
  function Target(think: string): string
  {
    ThinkOpen + think + ThinkClose
  }

  /** `think_start`, `think_end`, the conditional slice, then `replace` of every
      copy of `<think>` + trace + `</think>` by the empty string. */
  function SplitThink(ans: string): (a: Answer)
    ensures |a.clean| <= |ans|
    ensures |a.think| <= |ans|
  {
    var thinkStart := Find(ans, ThinkOpen);
    var thinkEnd := Find(ans, ThinkClose);
    var think := if thinkStart != -1 && thinkEnd != -1 then Slice(ans, thinkStart + 7, thinkEnd) else "";
    RemoveAllLength(ans, Target(think));
    Answer(RemoveAll(ans, Target(think)), think)
  }

  /** The target built from an empty trace is the literal `<think></think>`. */
  lemma EmptyTarget()
    ensures Target("") == "<think></think>"
  {
    assert Target("") == ThinkOpen + ThinkClose;
  }

  /** With either marker missing the trace is empty and the answer is returned
      unchanged: the target `<think></think>` cannot occur. */
  lemma MissingMarkerKeepsAnswer(ans: string)
    requires !Contains(ans, ThinkOpen) || !Contains(ans, ThinkClose)
    ensures !Contains(ans, "<think></think>")
    ensures SplitThink(ans).think == ""
    ensures SplitThink(ans).clean == ans
  {
    FindSpec(ans, ThinkOpen);
    FindSpec(ans, ThinkClose);
    EmptyTarget();
    assert Target("") == ThinkOpen + ThinkClose;
    if Contains(ans, ThinkOpen + ThinkClose) {
      ContainsConcat(ans, ThinkOpen, ThinkClose);
    }
    RemoveAllAbsent(ans, Target(""));
  }

  /** No `</think>` starts at any of the seven positions of a `<think>`. */
  lemma NoCloseInsideOpen(s: string, i: int)
    requires OccursAt(s, ThinkOpen, i)
    ensures forall j :: i <= j < i + 7 ==> !OccursAt(s, ThinkClose, j)
  {
    forall j | i <= j < i + 7 ensures !OccursAt(s, ThinkClose, j) {
      assert s[j] == s[i..i + 7][j - i];
      assert s[i + 1] == s[i..i + 7][1];
      if j + 8 <= |s| {
        assert s[j..j + 8][0] == s[j];
        assert s[j..j + 8][1] == s[j + 1];
      }
    }
  }

  /** The first `</think>` never starts inside the first `<think>`, so the slice
      from `think_start + 7` is either empty or starts right after the marker. */
  lemma MarkersDisjoint(ans: string)
    requires Contains(ans, ThinkOpen) && Contains(ans, ThinkClose)
    ensures var st, en := Find(ans, ThinkOpen), Find(ans, ThinkClose);
            en < st || st + 7 <= en
  {
    FindSpec(ans, ThinkOpen);
    FindSpec(ans, ThinkClose);
    NoCloseInsideOpen(ans, Find(ans, ThinkOpen));
  }

  /** A `<think>` at `st` and a `</think>` at `en` past it delimit one copy of the
      target built from the text between them. */
  lemma SpanIsTarget(ans: string, st: int, en: int)
    requires OccursAt(ans, ThinkOpen, st) && OccursAt(ans, ThinkClose, en) && st + 7 <= en
    ensures OccursAt(ans, Target(ans[st + 7..en]), st)
  {
    var think := ans[st + 7..en];
    SliceSplit3(ans, st, st + 7, en, en + 8);
    assert ans[st..st + |Target(think)|] == Target(think);
  }

  /** Markers in order: the trace is exactly the text strictly between the first
      `<think>` and the first `</think>`, the delimited span is one copy of the
      target, and the answer loses at least that span. */
  lemma InOrderMarkersExtractBetween(ans: string)
    requires Contains(ans, ThinkOpen) && Contains(ans, ThinkClose)
    requires Find(ans, ThinkOpen) < Find(ans, ThinkClose)
    ensures var st, en := Find(ans, ThinkOpen), Find(ans, ThinkClose);
            st + 7 <= en && SplitThink(ans).think == ans[st + 7..en]
    ensures OccursAt(ans, Target(SplitThink(ans).think), Find(ans, ThinkOpen))
    ensures |SplitThink(ans).clean| <= |ans| - 15 - |SplitThink(ans).think|
  {
    FindSpec(ans, ThinkOpen);
    FindSpec(ans, ThinkClose);
    MarkersDisjoint(ans);
    var st, en := Find(ans, ThinkOpen), Find(ans, ThinkClose);
    assert st + 7 <= en && en + 8 <= |ans|;
    var think := ans[st + 7..en];
    assert Slice(ans, st + 7, en) == think;
    assert SplitThink(ans).think == think;
    SpanIsTarget(ans, st, en);
    assert Contains(ans, Target(think));
    RemoveAllLength(ans, Target(think));
  }

  /** `</think>` before `<think>`: the slice is empty, so the trace is empty and
      every `<think></think>` is removed from the answer. */
  lemma ReversedMarkersGiveEmptyTrace(ans: string)
    requires Contains(ans, ThinkOpen) && Contains(ans, ThinkClose)
    requires Find(ans, ThinkClose) < Find(ans, ThinkOpen)
    ensures SplitThink(ans).think == ""
    ensures SplitThink(ans).clean == RemoveAll(ans, "<think></think>")
  {
    FindSpec(ans, ThinkOpen);
    FindSpec(ans, ThinkClose);
    var st, en := Find(ans, ThinkOpen), Find(ans, ThinkClose);
    assert st + 7 > en >= 0;
    assert Slice(ans, st + 7, en) == [];
    assert SplitThink(ans).think == "";
    EmptyTarget();
  }

  /** The trace never contains `</think>`: the first one in the answer ends it. */
  lemma TraceHasNoCloseMarker(ans: string)
    ensures !Contains(SplitThink(ans).think, ThinkClose)
  {
    var st, en := Find(ans, ThinkOpen), Find(ans, ThinkClose);
    if st == -1 || en == -1 {
      assert SplitThink(ans).think == "";
    } else {
      FindSpec(ans, ThinkClose);
      MarkersDisjoint(ans);
      if en < st {
        assert Slice(ans, st + 7, en) == [];
        assert SplitThink(ans).think == "";
      } else {
        var think := ans[st + 7..en];
        assert Slice(ans, st + 7, en) == think;
        assert SplitThink(ans).think == think;
        SliceBeforeFirstIsFree(ans, ThinkClose, st + 7, en);
      }
    }
  }

  /** The clean answer is what remains of `ans` once it is cut at every leftmost,
      non-overlapping copy of the target: the pieces rejoined with the target give
      `ans` back, none of them holds the target, and their concatenation is the
      clean answer. */
  lemma CleanAnswerRemovesEveryCopy(ans: string)
    ensures var a := SplitThink(ans); var pieces := SplitOn(ans, Target(a.think));
            Join(Target(a.think), pieces) == ans &&
            a.clean == Join("", pieces) &&
            forall k :: 0 <= k < |pieces| ==> !Contains(pieces[k], Target(a.think))
  {
    var target := Target(SplitThink(ans).think);
    SplitOnRoundTrip(ans, target);
    RemoveAllIsJoinOfPieces(ans, target);
    forall k | 0 <= k < |SplitOn(ans, target)| ensures !Contains(SplitOn(ans, target)[k], target) {
      SplitOnPiecesFree(ans, target, k);
    }
  }

  /** In `<think>` + trace + `</think>` + rest, with no `</think>` in the trace, the
      first `<think>` is at 0 and the first `</think>` right after the trace. */
  lemma LeadingTraceMarkers(trace: string, rest: string)
    requires !Contains(trace, ThinkClose)
    ensures Find(Target(trace) + rest, ThinkOpen) == 0
    ensures Find(Target(trace) + rest, ThinkClose) == 7 + |trace|
  {
    var ans := Target(trace) + rest;
    var en := 7 + |trace|;
    assert ans[..7] == ThinkOpen;
    assert OccursAt(ans, ThinkOpen, 0);
    FindIsFirst(ans, ThinkOpen, 0);
    assert ans[en..en + 8] == ThinkClose;
    NoCloseInsideOpen(ans, 0);
    assert ans[7..en] == trace;
    forall j | 7 <= j < en ensures !OccursAt(ans, ThinkClose, j) {
      if j + 8 <= en {
        SliceOfSlice(ans, 7, en, j - 7, j + 1);
        assert !OccursAt(trace, ThinkClose, j - 7);
      } else if j + 8 <= |ans| {
        assert ans[en] == ans[en..en + 8][0];
        assert ans[j..j + 8][en - j] == ans[en];
      }
    }
    FindIsFirst(ans, ThinkClose, en);
  }

  /** An answer that opens with `<think>` + trace + `</think>`, where the trace holds
      no `</think>`, splits into that trace and the rest, provided the rest holds no
      further copy of the delimited trace. */
  lemma LeadingTraceSplitsOff(trace: string, rest: string)
    requires !Contains(trace, ThinkClose)
    requires !Contains(rest, Target(trace))
    ensures SplitThink(Target(trace) + rest) == Answer(rest, trace)
  {
    var ans := Target(trace) + rest;
    LeadingTraceMarkers(trace, rest);
    assert ans[7..7 + |trace|] == trace;
    assert SplitThink(ans).think == trace;
    assert ans[..|Target(trace)|] == Target(trace);
    assert ans[|Target(trace)|..] == rest;
    RemoveAllAbsent(rest, Target(trace));
  }

  /** Neither part of the example answer below holds a marker character. */
  lemma ExamplePartsHaveNoMarker()
    ensures !Contains("step1", ThinkClose)
    ensures !Contains("Paris is the capital.", Target("step1"))
  {
    assert ThinkClose[0] == '<' && '<' !in "step1";
    MissingFirstCharNotContained("step1", ThinkClose);
    assert Target("step1")[0] == '<' && '<' !in "Paris is the capital.";
    MissingFirstCharNotContained("Paris is the capital.", Target("step1"));
  }

  /** The answer with a trace followed by text. */
  lemma TraceThenAnswerExample(ans: string)
    requires ans == "<think>step1</think>Paris is the capital."
    ensures SplitThink(ans) == Answer("Paris is the capital.", "step1")
  {
    assert ans == Target("step1") + "Paris is the capital.";
    ExamplePartsHaveNoMarker();
    LeadingTraceSplitsOff("step1", "Paris is the capital.");
  }
}
