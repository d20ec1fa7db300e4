/** `parse_step` and `parse_steps`: a sentence's first token names the
    action, and that action's extraction patterns, tried in order, turn the
    rest of the sentence into a structured step.  A sentence whose verb is
    unknown, or whose action's patterns all fail (for every action but
    click), becomes a TODO step carrying the sentence verbatim. */
module StepParser {
  import opened Text
  import A = Actions
  import opened Patterns
  import opened Sentences

  datatype Role = Link | Button

  datatype FieldKind = Input | Textarea

  /** What a click step aims at: an accessible role and name, or the raw
      remainder of the sentence used as a selector. */
  datatype ClickTarget = ByRole(role: Role, name: string) | Raw(selector: string)

  /** The structured step.  Field and dropdown steps carry the control's
      name and the value to enter or choose; an expectation carries the
      text that names where to look and the text expected there. */
  datatype Step =
    | Click(target: ClickTarget)
    | Fill(kind: FieldKind, name: string, value: string)
    | Select(name: string, value: string)
    | Expect(scope: string, value: string)
    | Goto(destination: string)
    | WaitFor(seconds: nat)
    | Todo(original: string)

  /** The canonical action a step performs; a TODO step performs none. */
  function ActionOf(r: Step): Option<A.Action> {
    match r
    case Click(_) => Some(A.Click)
    case Fill(_, _, _) => Some(A.Fill)
    case Select(_, _) => Some(A.Select)
    case Expect(_, _) => Some(A.Expect)
    case Goto(_) => Some(A.Goto)
    case WaitFor(_) => Some(A.WaitFor)
    case Todo(_) => None
  }

  /** The `"action"` entry of the dictionary a step stands for: the
      action's name from the verb table, or `TODO`. */
  function ActionField(r: Step): string {
    match ActionOf(r)
    case Some(a) => A.Name(a)
    case None => "TODO"
  }

  /** The action named by the first whitespace-separated token, if the
      sentence has a token and the table knows it. */
  function Verb(step: string): Option<A.Action> {
    if Blank(step) then None else A.Lookup(FirstToken(step))
  }

  /** `step[len(tokens[0]):].strip()`: the sentence with as many characters
      cut from its front as the first token has, then stripped. */
  function Remainder(step: string): string {
    Strip(step[|FirstToken(step)|..])
  }

  /** The link pattern first, then the button pattern, then the raw
      remainder: a click step always results. */
  function ParseClick(rest: string): (r: Step)
    ensures r.Click?
  {
    match Search(rest, LinkAt)
    case Some(name) => Click(ByRole(Link, name))
    case None =>
      match Search(rest, ButtonAt)
      case Some(name) => Click(ByRole(Button, name))
      case None => Click(Raw(rest))
  }

  /** The input-field pattern first, then the textarea pattern. */
  function ParseFill(rest: string, step: string): (r: Step)
    ensures r.Fill? || r == Todo(step)
  {
    match Search<(string, string)>(rest, FieldWithAt)
    case Some((name, value)) => Fill(Input, name, value)
    case None =>
      match Search<(string, string)>(rest, TextareaWithAt)
      case Some((name, value)) => Fill(Textarea, name, value)
      case None => Todo(step)
  }

  /** The first capture is the option, the second the dropdown's name. */
  function ParseSelect(rest: string, step: string): (r: Step)
    ensures r.Select? || r == Todo(step)
  {
    match Search<(string, string)>(rest, SelectAt)
    case Some((value, name)) => Select(name, value)
    case None => Todo(step)
  }

  function ParseExpect(rest: string, step: string): (r: Step)
    ensures r.Expect? || r == Todo(step)
  {
    match Search<(string, string)>(rest, ExpectAt)
    case Some((scope, value)) => Expect(scope, value)
    case None => Todo(step)
  }

  function ParseGoto(rest: string, step: string): (r: Step)
    ensures r.Goto? || r == Todo(step)
  {
    match Search(rest, GotoAt)
    case Some(destination) => Goto(destination)
    case None => Todo(step)
  }

  /** The first run of digits, read as a decimal number of seconds. */
  function ParseWait(rest: string, step: string): (r: Step)
    ensures r.WaitFor? || r == Todo(step)
  {
    DigitsCaptured(rest);
    match Search(rest, DigitsAt)
    case Some(ds) => WaitFor(DecimalValue(ds))
    case None => Todo(step)
  }

  /** The extraction patterns of one action applied to the rest of a
      sentence: a step of that action or TODO, and never TODO for a click. */
  function Extract(action: A.Action, rest: string, step: string): (r: Step)
    ensures r.Todo? ==> r == Todo(step) && action != A.Click
    ensures r.Todo? || ActionOf(r) == Some(action)
  {
    match action
    case Click => ParseClick(rest)
    case Fill => ParseFill(rest, step)
    case Select => ParseSelect(rest, step)
    case Expect => ParseExpect(rest, step)
    case Goto => ParseGoto(rest, step)
    case WaitFor => ParseWait(rest, step)
  }

  /** `parse_step(step)`.  A TODO step keeps the sentence verbatim; a
      sentence without a known verb is TODO; any other step performs
      the action its verb names; and a click verb never gives TODO. */
  function ParseStep(step: string): (r: Step)
    ensures r.Todo? ==> r.original == step
    ensures Verb(step).None? ==> r == Todo(step)
    ensures ActionOf(r).Some? ==> ActionOf(r) == Verb(step)
    ensures Verb(step) == Some(A.Click) ==> r.Click?
  {
    match Verb(step)
    case None => Todo(step)
    case Some(action) => Extract(action, Remainder(step), step)
  }

  /** The `"action"` entry of a parsed sentence is `TODO` exactly for a TODO
      step, and otherwise the name the table gives the sentence's verb. */
  lemma {:induction false} ActionFieldOfStep(step: string)
    ensures ActionField(ParseStep(step)) == "TODO" <==> ParseStep(step).Todo?
    ensures !ParseStep(step).Todo? ==> Verb(step).Some? && ActionField(ParseStep(step)) == A.Name(Verb(step).value)
  {
    ActionFieldMeaning(ParseStep(step));
  }

  /** A step's `"action"` entry is `TODO` exactly when the step is. */
  lemma {:induction false} ActionFieldMeaning(r: Step)
    ensures ActionField(r) == "TODO" <==> r.Todo?
    ensures !r.Todo? ==> ActionOf(r).Some? && ActionField(r) == A.Name(ActionOf(r).value)
  {
    if !r.Todo? {
      A.NameIsNotTodo(ActionOf(r).value);
    }
  }

  /** The `"action"` entry tells steps apart by the action they perform. */
  lemma {:induction false} ActionFieldIdentifies(r1: Step, r2: Step)
    ensures ActionField(r1) == ActionField(r2) <==> ActionOf(r1) == ActionOf(r2)
  {
    ActionFieldMeaning(r1);
    ActionFieldMeaning(r2);
    if ActionOf(r1).Some? && ActionOf(r2).Some? {
      A.NamesDistinct(ActionOf(r1).value, ActionOf(r2).value);
    }
  }

  /** Blank input, or a first token outside the table in any letter case,
      gives TODO with the input verbatim. */
  lemma {:induction false} UnknownIsTodo(step: string)
    requires Blank(step) || LowerStr(FirstToken(step)) !in A.ActionMap
    ensures ParseStep(step) == Todo(step)
  {
    if !Blank(step) {
      A.LookupIsTableEntry(FirstToken(step));
    }
  }

  /** A sentence with a known verb is handled by that verb's patterns. */
  lemma {:induction false} KnownVerb(step: string, a: A.Action)
    requires Verb(step) == Some(a)
    ensures !Blank(step) && ParseStep(step) == Extract(a, Remainder(step), step)
  {
  }

  /** A sentence made of a verb, one space and a stripped rest has that
      verb as its first token and that rest as its remainder. */
  lemma {:induction false} VerbThenRest(verb: string, rest: string)
    requires verb != [] && forall k :: 0 <= k < |verb| ==> !IsSpace(verb[k])
    requires rest == [] || Stripped(rest)
    ensures FirstToken(verb + " " + rest) == verb
    ensures Remainder(verb + " " + rest) == rest
  {
    var s := verb + " " + rest;
    FirstTokenIs(s, |verb|);
    assert s[..|verb|] == verb;
    assert s[|verb|..] == " " + rest;
    StripIndented(" ", rest);
  }

  /** The link pattern wins when ` link` follows some character of the
      remainder on its line; otherwise the button pattern when `the ...
      button` occurs on one line; otherwise the whole remainder is the
      target. */
  lemma {:induction false} ClickCases(rest: string)
    ensures var r := ParseClick(rest);
      (r.target.ByRole? && r.target.role == Link <==> LinkOccurs(rest))
      && (r.target.ByRole? && r.target.role == Button <==> !LinkOccurs(rest) && ButtonOccurs(rest))
      && (r.target == Raw(rest) <==> !LinkOccurs(rest) && !ButtonOccurs(rest))
  {
    LinkSearch(rest);
    ButtonSearch(rest);
  }

  /** An input field when `the ... field with ...` occurs on one line, else
      a textarea when `the ... textarea with ...` does, else TODO. */
  lemma {:induction false} FillCases(rest: string, step: string)
    ensures var r := ParseFill(rest, step);
      (r.Fill? && r.kind == Input <==> FieldOccurs(rest, FieldWith))
      && (r.Fill? && r.kind == Textarea <==> !FieldOccurs(rest, FieldWith) && FieldOccurs(rest, TextareaWith))
      && (r == Todo(step) <==> !FieldOccurs(rest, FieldWith) && !FieldOccurs(rest, TextareaWith))
  {
    FieldWithSearch(rest);
    TextareaWithSearch(rest);
  }

  /** TODO exactly when no `... from the ... dropdown` occurs on one line. */
  lemma {:induction false} SelectCases(rest: string, step: string)
    ensures ParseSelect(rest, step).Select? <==> SelectOccurs(rest)
    ensures ParseSelect(rest, step) == Todo(step) <==> !SelectOccurs(rest)
  {
    SelectSearch(rest);
  }

  /** TODO exactly when no `... contains '...'` occurs on one line. */
  lemma {:induction false} ExpectCases(rest: string, step: string)
    ensures ParseExpect(rest, step).Expect? <==> ExpectOccurs(rest)
    ensures ParseExpect(rest, step) == Todo(step) <==> !ExpectOccurs(rest)
  {
    ExpectSearch(rest);
  }

  /** For a remainder that does not open with a line feed (a stripped one
      does not): TODO exactly when it is empty; on a single line the
      destination is the remainder, without a leading `to ` when something
      follows that. */
  lemma {:induction false} GotoCases(rest: string, step: string)
    requires rest == [] || rest[0] != '\n'
    ensures ParseGoto(rest, step) == Todo(step) <==> rest == []
    ensures rest != [] && '\n' !in rest ==>
      ParseGoto(rest, step) == Goto(if LitAt(rest, 0, To) && |rest| > |To| then rest[|To|..] else rest)
  {
    GotoSearch(rest);
    if rest != [] {
      if '\n' !in rest {
        GotoWholeLine(rest);
      }
    }
  }

  /** TODO exactly when the remainder has no digit. */
  lemma {:induction false} WaitCases(rest: string, step: string)
    ensures ParseWait(rest, step) == Todo(step) <==> forall k :: 0 <= k < |rest| ==> !IsDigit(rest[k])
  {
    DigitSearch(rest);
  }

  /** The number of seconds is the one written by the first run of digits. */
  lemma {:induction false} WaitNumeral(rest: string, step: string, before: string, n: nat, after: string)
    requires rest == before + Numeral(n) + after
    requires forall k :: 0 <= k < |before| ==> !IsDigit(before[k])
    requires after == [] || !IsDigit(after[0])
    ensures ParseWait(rest, step) == WaitFor(n)
  {
    var ds := Numeral(n);
    var p := |before|;
    assert forall k :: p <= k < p + |ds| ==> rest[k] == ds[k - p];
    RunEndIs(rest, p, Digit, p + |ds|);
    FirstDigitRun(rest, p);
    assert rest[p..p + |ds|] == ds;
    DecimalValueOfNumeral(n);
  }

  /** A goto sentence is TODO exactly when nothing follows its verb. */
  lemma {:induction false} GotoSteps(step: string)
    requires Verb(step) == Some(A.Goto)
    ensures ParseStep(step) == Todo(step) <==> Remainder(step) == []
  {
    var rest := Remainder(step);
    assert rest == [] || !IsSpace(rest[0]);
    KnownVerb(step, A.Goto);
    GotoCases(rest, step);
  }

  /** `parse_step` over a list of sentences, one step per sentence in order. */
  function StepsOf(sentences: seq<string>): (r: seq<Step>)
    ensures |r| == |sentences|
    ensures forall i :: 0 <= i < |r| ==> r[i] == ParseStep(sentences[i])
  {
    if sentences == [] then [] else [ParseStep(sentences[0])] + StepsOf(sentences[1..])
  }

  lemma {:induction false} StepsOfAppend(x: seq<string>, y: seq<string>)
    ensures StepsOf(x + y) == StepsOf(x) + StepsOf(y)
    decreases |x|
  {
    if x == [] {
      assert x + y == y;
    } else {
      assert (x + y)[0] == x[0] && (x + y)[1..] == x[1..] + y;
      StepsOfAppend(x[1..], y);
    }
  }

  /** `parse_steps(description)`: exactly one step per sentence, in order;
      every TODO step carries its sentence, which is non-empty, stripped and
      free of terminators. */
  function ParseSteps(description: string): (r: seq<Step>)
    ensures |r| == |SplitSentences(description)|
    ensures forall i :: 0 <= i < |r| ==> r[i] == ParseStep(SplitSentences(description)[i])
    ensures forall i :: 0 <= i < |r| && r[i].Todo? ==>
      Stripped(r[i].original) && NoTerminator(r[i].original)
  {
    StepsOf(SplitSentences(description))
  }

  /** Every sentence has a first token, and that token is a prefix of the
      sentence: cutting its length from the front removes exactly the verb. */
  lemma {:induction false} SentenceStartsWithVerb(description: string, i: nat)
    requires i < |SplitSentences(description)|
    ensures var s := SplitSentences(description)[i];
      !Blank(s) && s == FirstToken(s) + s[|FirstToken(s)|..]
  {
    var s := SplitSentences(description)[i];
    assert Stripped(s);
    FirstTokenIsPrefix(s);
  }

  /** Cutting the description at a terminator cuts the step list there. */
  lemma {:induction false} ParseStepsAppend(a: string, t: char, b: string)
    requires IsTerminator(t)
    ensures ParseSteps(a + [t] + b) == ParseSteps(a) + ParseSteps(b)
  {
    SentencesAppend(a, t, b);
    StepsOfAppend(SplitSentences(a), SplitSentences(b));
  }

  /** A description yields no step exactly when it is made of whitespace
      and terminators only. */
  lemma {:induction false} NoStepsIff(description: string)
    ensures ParseSteps(description) == [] <==>
      forall k :: 0 <= k < |description| ==> IsSpace(description[k]) || IsTerminator(description[k])
  {
    NoSentencesIff(description);
  }

  /** A description without terminators is one step, that of its stripped
      text, or none when it is blank. */
  lemma {:induction false} OneSentence(description: string)
    requires NoTerminator(description) && !Blank(description)
    ensures ParseSteps(description) == [ParseStep(Strip(description))]
  {
    SentencesOfPlain(description);
  }

  /** A stripped sentence without terminators, closed by one terminator, is
      a description of exactly its own step. */
  lemma {:induction false} ParseStepsTerminated(sentence: string, t: char)
    requires Stripped(sentence) && NoTerminator(sentence) && IsTerminator(t)
    ensures ParseSteps(sentence + [t]) == [ParseStep(sentence)]
  {
    ParseStepsAppend(sentence, t, []);
    assert sentence + [t] + [] == sentence + [t];
    StripStripped(sentence);
    OneSentence(sentence);
    NoStepsIff([]);
  }
}
