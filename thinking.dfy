/**
 * The thinking engine (`ThinkingEngine`): it classifies a question, plans the steps of an answer,
 * keeps a log of executed steps and evaluates and renders that log. The log is the only state.
 */
module Thinking {
  import opened Wrappers
  import opened Text
  import opened Numbers

  /** One executed step of the log. */
  datatype ThinkingStep = ThinkingStep(name: string, description: string, result: string, confidence: real, timestamp: string)

  /** What `analyze_question` returns. */
  datatype QuestionAnalysis = QuestionAnalysis(kind: string, keywords: seq<string>, complexity: nat, requiresWebSearch: bool)

  // ---------------------------------------------------------------------------------------------
  // analyze_question

  /** The question words, in the order they are tried, and the kind each one marks. */
  const QuestionTypes: seq<(string, string)> := [
    ("ما", "information_query"),
    ("كيف", "how_to"),
    ("لماذا", "explanation"),
    ("متى", "time_query"),
    ("أين", "location_query"),
    ("هل", "yes_no_query"),
    ("من", "person_query")
  ]

  const GeneralQuery := "general_query"

  /** The words whose presence in the lower-cased question asks for a web search. */
  const WebMarkers: seq<string> := ["احدث", "جديد", "اخر", "الان"]

  /** The table entry at `k` is the first, in table order, whose word the question starts with. */
  predicate FirstMatch(q: string, table: seq<(string, string)>, k: int) {
    0 <= k < |table| && StartsWith(q, table[k].0) && forall j :: 0 <= j < k ==> !StartsWith(q, table[j].0)
  }

  /** The kind of the first entry of `table` whose word the question starts with; `general_query` when none. */
  function KindOf(q: string, table: seq<(string, string)>): (r: string)
    ensures (forall k :: 0 <= k < |table| ==> !StartsWith(q, table[k].0)) ==> r == GeneralQuery
    ensures forall k :: FirstMatch(q, table, k) ==> r == table[k].1
  {
    if table == [] then GeneralQuery
    else if StartsWith(q, table[0].0) then table[0].1
    else
      var r := KindOf(q, table[1..]);
      assert forall k :: 1 <= k < |table| && FirstMatch(q, table, k) ==> FirstMatch(q, table[1..], k - 1);
      r
  }

  /** The words of `words`, in order, longer than `n` characters. */
  function LongerThan(words: seq<string>, n: nat): (r: seq<string>)
    ensures |r| <= |words|
    ensures forall w :: w in r <==> w in words && |w| > n
    ensures forall w :: multiset(r)[w] == if |w| > n then multiset(words)[w] else 0
  {
    if words == [] then []
    else
      var r := (if |words[0]| > n then [words[0]] else []) + LongerThan(words[1..], n);
      assert words == [words[0]] + words[1..];
      r
  }

  /** Filtering two lists one after the other keeps the words of each, in order. */
  lemma {:induction false} LongerThanAppend(a: seq<string>, b: seq<string>, n: nat)
    ensures LongerThan(a + b, n) == LongerThan(a, n) + LongerThan(b, n)
    decreases |a|
  {
    if a == [] {
      assert a + b == b;
    } else {
      assert (a + b)[0] == a[0] && (a + b)[1..] == a[1..] + b;
      LongerThanAppend(a[1..], b, n);
    }
  }

  /** Some marker occurs in `hay`. */
  function AnyContained(hay: string, markers: seq<string>): (b: bool)
    ensures b <==> exists m :: m in markers && Contains(hay, m)
  {
    if markers == [] then false
    else if Contains(hay, markers[0]) then
      assert markers[0] in markers;
      true
    else
      var b := AnyContained(hay, markers[1..]);
      assert forall m :: m in markers ==> m == markers[0] || m in markers[1..];
      assert forall m :: m in markers[1..] ==> m in markers;
      b
  }

  /** `analyze_question(question)`. */
  function AnalyzeQuestion(q: string): (a: QuestionAnalysis)
    ensures (forall k :: 0 <= k < |QuestionTypes| ==> !StartsWith(q, QuestionTypes[k].0)) ==> a.kind == GeneralQuery
    ensures forall k :: FirstMatch(q, QuestionTypes, k) ==> a.kind == QuestionTypes[k].1
    ensures a.complexity == |Split(q)|
    ensures forall w :: w in a.keywords <==> w in Split(q) && |w| > 3
    ensures forall w :: multiset(a.keywords)[w] == if |w| > 3 then multiset(Split(q))[w] else 0
    ensures a.requiresWebSearch <==> exists m :: m in WebMarkers && Contains(Lower(q), m)
  {
    var words := Split(q);
    QuestionAnalysis(KindOf(q, QuestionTypes), LongerThan(words, 3), |words|, AnyContained(Lower(q), WebMarkers))
  }

  /** Every keyword is a whole whitespace-separated word of the question, of more than three characters. */
  lemma KeywordsAreWords(q: string)
    ensures forall w :: w in AnalyzeQuestion(q).keywords ==> |w| > 3 && exists i :: MaximalRunAt(q, w, i, NotSpace)
  {
    RunsAreMaximal(q, NotSpace);
  }

  /** A question opening with "كيف" is a how-to question: no earlier word of the table is a prefix of it. */
  lemma HowToQuestion(q: string)
    requires StartsWith(q, "كيف")
    ensures AnalyzeQuestion(q).kind == "how_to"
  {
    assert q[0] == 'ك';
    assert !StartsWith(q, "ما");
    assert FirstMatch(q, QuestionTypes, 1);
  }

  /**
   * "من" is tried last but only against the start of the question, so any question opening with
   * a word that merely begins with it, such as "منذ" (since), is taken as a person query.
   */
  lemma SinceIsPersonQuery(rest: string)
    ensures AnalyzeQuestion("منذ" + rest).kind == "person_query"
  {
    var q := "منذ" + rest;
    assert q[0] == 'م' && q[1] == 'ن';
    assert q[..2] == "من";
    forall j | 0 <= j < 6 ensures !StartsWith(q, QuestionTypes[j].0) {
      var w := QuestionTypes[j].0;
      assert |w| >= 2 && (w[0] != q[0] || w[1] != q[1]);
    }
    assert FirstMatch(q, QuestionTypes, 6);
  }

  // ---------------------------------------------------------------------------------------------
  // plan_solution

  const AnalyzeStep := "تحليل السؤال"
  const SearchStep := "البحث عن معلومات حديثة"
  const AnswerStep := "صياغة الإجابة النهائية"
  const HowToSteps: seq<string> := ["تحديد المتطلبات الأساسية", "تقسيم المهمة إلى خطوات", "شرح كل خطوة بالتفصيل", "تقديم أمثلة عملية"]
  const ExplanationSteps: seq<string> := ["جمع المعلومات الأساسية", "تحليل العلاقات السببية", "تقديم تفسير منطقي", "دعم التفسير بالأدلة"]

  /** The steps for the kind of question, between the search step and the answer. */
  function KindSteps(kind: string): seq<string> {
    if kind == "how_to" then HowToSteps
    else if kind == "explanation" then ExplanationSteps
    else []
  }

  /** `plan_solution(analysis)`. */
  function PlanSolution(a: QuestionAnalysis): (plan: seq<string>)
    ensures |plan| >= 2 && plan[0] == AnalyzeStep && plan[|plan| - 1] == AnswerStep
  {
    [AnalyzeStep] + (if a.requiresWebSearch then [SearchStep] else []) + KindSteps(a.kind) + [AnswerStep]
  }

  /**
   * The plan opens with the analysis and closes with the answer; the search step comes second
   * exactly when a web search is required and appears nowhere otherwise; the four steps of a how-to
   * or an explanation follow it; so the plan has 2 + [web] + 4·[how-to or explanation] steps.
   */
  lemma PlanShape(a: QuestionAnalysis)
    ensures var plan := PlanSolution(a);
      var web := if a.requiresWebSearch then 1 else 0;
      && |plan| == 2 + web + (if a.kind == "how_to" || a.kind == "explanation" then 4 else 0)
      && (plan[1] == SearchStep <==> a.requiresWebSearch)
      && (SearchStep in plan <==> a.requiresWebSearch)
      && (a.kind == "how_to" ==> plan[1 + web..5 + web] == HowToSteps)
      && (a.kind == "explanation" ==> plan[1 + web..5 + web] == ExplanationSteps)
      && (a.kind != "how_to" && a.kind != "explanation" ==> plan == [AnalyzeStep] + plan[1..1 + web] + [AnswerStep])
  {
    var plan := PlanSolution(a);
    var web := if a.requiresWebSearch then 1 else 0;
    assert SearchStep !in HowToSteps + ExplanationSteps + [AnalyzeStep, AnswerStep] by {
      assert SearchStep[0] == 'ا' && SearchStep[1] == 'ل' && SearchStep[2] == 'ب';
      forall w | w in HowToSteps + ExplanationSteps + [AnalyzeStep, AnswerStep] ensures w != SearchStep {
        if w == AnalyzeStep { assert w[0] == 'ت'; }
        else if w == AnswerStep { assert w[0] == 'ص'; }
        else if w in HowToSteps { assert w[0] == 'ت' || w[0] == 'ش'; }
        else { assert w[0] == 'ج' || w[0] == 'ت' || w[0] == 'د'; }
      }
    }
    var mid := KindSteps(a.kind);
    assert plan == [AnalyzeStep] + (if a.requiresWebSearch then [SearchStep] else []) + mid + [AnswerStep];
    assert forall w :: w in mid ==> w in HowToSteps + ExplanationSteps;
    if !a.requiresWebSearch {
      assert plan[1] == (mid + [AnswerStep])[0];
    }
  }

  // ---------------------------------------------------------------------------------------------
  // execute_thinking_step, evaluate_solution

  const ExecutedConfidence: real := 0.8

  /** The record `execute_thinking_step(step, context)` logs at time `now`. */
  function StepRecord(step: string, now: string): (t: ThinkingStep)
    ensures t.name == step && t.confidence == ExecutedConfidence && t.timestamp == now
  {
    ThinkingStep(step, "تنفيذ " + step, "نتيجة تنفيذ خطوة: " + step, ExecutedConfidence, now)
  }

  const NoStepsExecuted := "لم يتم تنفيذ أي خطوات"

  /** What `evaluate_solution` returns; `stepsCount` is absent for an empty log. */
  datatype Evaluation = Evaluation(confidence: real, complete: bool, missingSteps: seq<string>, stepsCount: Option<nat>)

  /** Some step of the log carries this name. */
  predicate Executed(log: seq<ThinkingStep>, name: string) {
    exists k :: 0 <= k < |log| && log[k].name == name
  }

  function Confidences(log: seq<ThinkingStep>): (cs: seq<real>)
    ensures |cs| == |log| && forall k :: 0 <= k < |log| ==> cs[k] == log[k].confidence
  {
    seq(|log|, k requires 0 <= k < |log| => log[k].confidence)
  }

  /** The expected steps the log has not executed, in the order analysis, answer. */
  function Missing(log: seq<ThinkingStep>): (r: seq<string>)
    ensures forall x :: x in r <==> (x == AnalyzeStep || x == AnswerStep) && !Executed(log, x)
  {
    (if Executed(log, AnalyzeStep) then [] else [AnalyzeStep]) + (if Executed(log, AnswerStep) then [] else [AnswerStep])
  }

  /** `evaluate_solution()` over the log. */
  function Evaluate(log: seq<ThinkingStep>): (e: Evaluation)
    ensures log == [] ==> e == Evaluation(0.0, false, [NoStepsExecuted], None)
    ensures log != [] ==> e.stepsCount == Some(|log|)
    ensures log != [] ==> (e.complete <==> Executed(log, AnalyzeStep) && Executed(log, AnswerStep))
    ensures log != [] ==> forall x :: x in e.missingSteps <==> (x == AnalyzeStep || x == AnswerStep) && !Executed(log, x)
    ensures log != [] ==> forall lo, hi :: Within(Confidences(log), lo, hi) ==> lo <= e.confidence <= hi
  {
    if log == [] then Evaluation(0.0, false, [NoStepsExecuted], None)
    else
      var cs := Confidences(log);
      var missing := Missing(log);
      assert forall lo, hi :: Within(cs, lo, hi) ==> lo <= Mean(cs) <= hi by {
        forall lo, hi | Within(cs, lo, hi) ensures lo <= Mean(cs) <= hi {
          MeanWithin(cs, lo, hi);
        }
      }
      Evaluation(Mean(cs), |missing| == 0, missing, Some(|log|))
  }

  /** The records logged by executing each step of `plan` in turn, at the given times. */
  function Executing(plan: seq<string>, times: seq<string>): (log: seq<ThinkingStep>)
    requires |times| == |plan|
    ensures |log| == |plan| && forall k :: 0 <= k < |plan| ==> log[k] == StepRecord(plan[k], times[k])
  {
    seq(|plan|, k requires 0 <= k < |plan| => StepRecord(plan[k], times[k]))
  }

  /** Executing a whole plan evaluates as complete, nothing missing, with confidence 0.8. */
  lemma ExecutedPlanCompletes(a: QuestionAnalysis, times: seq<string>)
    requires |times| == |PlanSolution(a)|
    ensures var e := Evaluate(Executing(PlanSolution(a), times));
      e.complete && e.missingSteps == [] && e.confidence == ExecutedConfidence
      && e.stepsCount == Some(|PlanSolution(a)|)
  {
    var plan := PlanSolution(a);
    var log := Executing(plan, times);
    assert log[0].name == AnalyzeStep;
    assert log[|log| - 1].name == AnswerStep;
    assert Executed(log, AnalyzeStep) && Executed(log, AnswerStep);
    MeanConstant(Confidences(log), ExecutedConfidence);
  }

  // ---------------------------------------------------------------------------------------------
  // format_thinking_process

  const NoThinkingSteps := "لم يتم تنفيذ أي خطوات تفكير بعد."
  const ProcessHeader := "خطوات التفكير:\n\n"

  /** The four lines of the step numbered `i`; `pct` renders a confidence as a percentage. */
  function StepLines(t: ThinkingStep, i: nat, pct: real -> string): string {
    NatToString(i) + ". " + t.name + "\n"
    + "   - " + t.description + "\n"
    + "   - النتيجة: " + t.result + "\n"
    + "   - درجة الثقة: " + pct(t.confidence) + "\n\n"
  }

  /** The steps of the log, numbered from `i`. */
  function LogLines(log: seq<ThinkingStep>, i: nat, pct: real -> string): string
    decreases |log|
  {
    if log == [] then "" else StepLines(log[0], i, pct) + LogLines(log[1..], i + 1, pct)
  }

  lemma {:induction false} LogLinesAppend(log: seq<ThinkingStep>, t: ThinkingStep, i: nat, pct: real -> string)
    ensures LogLines(log + [t], i, pct) == LogLines(log, i, pct) + StepLines(t, i + |log|, pct)
    decreases |log|
  {
    if log == [] {
      assert log + [t] == [t];
    } else {
      assert (log + [t])[1..] == log[1..] + [t];
      LogLinesAppend(log[1..], t, i + 1, pct);
    }
  }

  function MissingLines(missing: seq<string>): string {
    if missing == [] then "" else "  * " + missing[0] + "\n" + MissingLines(missing[1..])
  }

  function CompletionLine(complete: bool): string {
    "- اكتمال الحل: " + (if complete then "نعم" else "لا") + "\n"
  }

  function OverallLine(e: Evaluation, pct: real -> string): string {
    "\nالتقييم النهائي:\n" + "- درجة الثقة الإجمالية: " + pct(e.confidence) + "\n"
  }

  function MissingBlock(missing: seq<string>): string {
    if missing != [] then "- الخطوات المفقودة:\n" + MissingLines(missing) else ""
  }

  /** The final evaluation: overall confidence, completeness, and the missing steps when there are any. */
  function EvaluationLines(e: Evaluation, pct: real -> string): string {
    OverallLine(e, pct) + CompletionLine(e.complete) + MissingBlock(e.missingSteps)
  }

  /** `format_thinking_process()` over the log. */
  function FormatProcess(log: seq<ThinkingStep>, pct: real -> string): (out: string)
    ensures log == [] ==> out == NoThinkingSteps
  {
    if log == [] then NoThinkingSteps
    else ProcessHeader + LogLines(log, 1, pct) + EvaluationLines(Evaluate(log), pct)
  }

  lemma Framed(a: string, b: string, c: string)
    ensures a <= a + b + c
    ensures |c| <= |a + b + c| && (a + b + c)[|a + b + c| - |c|..] == c
  {
    assert (a + b + c)[..|a|] == a;
  }

  /**
   * A non-empty log renders as the header, the steps and the evaluation; a complete one ends with
   * the line saying the solution is complete, since nothing is then listed as missing.
   */
  lemma FormatProcessShape(log: seq<ThinkingStep>, pct: real -> string)
    requires log != []
    ensures ProcessHeader <= FormatProcess(log, pct)
    ensures Evaluate(log).complete ==> var out := FormatProcess(log, pct);
      |CompletionLine(true)| <= |out| && out[|out| - |CompletionLine(true)|..] == CompletionLine(true)
  {
    var e := Evaluate(log);
    var lines := LogLines(log, 1, pct);
    Framed(ProcessHeader, lines, EvaluationLines(e, pct));
    if e.complete {
      assert e.missingSteps == [];
      assert EvaluationLines(e, pct) == OverallLine(e, pct) + CompletionLine(true);
      Framed(ProcessHeader + lines, OverallLine(e, pct), CompletionLine(true));
    }
  }

  // ---------------------------------------------------------------------------------------------
  // The engine object

  class ThinkingEngine {
    var steps: seq<ThinkingStep>

    /** `ThinkingEngine()`: an empty log. */
    constructor ()
      ensures steps == []
    {
      steps := [];
    }

    /** `execute_thinking_step(step, context)` at time `now`: appends exactly one record and returns it. */
    method ExecuteThinkingStep(step: string, now: string) returns (t: ThinkingStep)
      modifies this
      ensures t == StepRecord(step, now)
      ensures steps == old(steps) + [t]
    {
      t := ThinkingStep(step, "تنفيذ " + step, "نتيجة تنفيذ خطوة: " + step, ExecutedConfidence, now);
      steps := steps + [t];
    }

    /** `format_thinking_process()`: the loop over the log, then the evaluation. */
    method FormatThinkingProcess(pct: real -> string) returns (out: string)
      ensures out == FormatProcess(steps, pct)
    {
      if steps == [] {
        return NoThinkingSteps;
      }
      var lines := "";
      for i := 0 to |steps|
        invariant lines == LogLines(steps[..i], 1, pct)
      {
        assert steps[..i + 1] == steps[..i] + [steps[i]];
        LogLinesAppend(steps[..i], steps[i], 1, pct);
        lines := lines + StepLines(steps[i], i + 1, pct);
      }
      assert steps[..|steps|] == steps;
      out := ProcessHeader + lines + EvaluationLines(Evaluate(steps), pct);
    }
  }
}
