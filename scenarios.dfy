/** Worked sentences: what the step parser makes of typical sentences of a
    test description, one scenario per action.  Each sentence is assembled
    from its verb, the pattern's keywords and the captured pieces, so that
    the facts about where a keyword does and does not occur are stated
    once per piece. */
module Scenarios {
  import opened Text
  import A = Actions
  import opened Patterns
  import opened Sentences
  import opened StepParser

  /** The sentence a verb and a stripped rest make, and the facts about its
      verb and remainder that every scenario needs. */
  lemma {:induction false} Sentence(verb: string, rest: string, a: A.Action)
    requires verb != [] && forall k :: 0 <= k < |verb| ==> !IsSpace(verb[k])
    requires rest == [] || Stripped(rest)
    requires LowerStr(verb) in A.Synonyms(a)
    ensures ParseStep(verb + " " + rest) == Extract(a, rest, verb + " " + rest)
  {
    VerbThenRest(verb, rest);
    A.LookupIsSynonym(verb, a);
    KnownVerb(verb + " " + rest, a);
  }

  lemma {:induction false} NoLinkInLoginButton(rest: string)
    requires rest == "the Login button"
    ensures Search(rest, LinkAt) == None
  {
    LitAbsent(rest, LinkWord, 4);
    LinkSearch(rest);
  }

  lemma {:induction false} LoginButton(rest: string)
    requires rest == "the Login button"
    ensures Search(rest, ButtonAt) == Some("Login")
  {
    assert rest == The + "Login" + ButtonWord;
    ButtonParts("Login");
  }

  /** "Click the Login button" clicks the button named "Login". */
  lemma {:induction false} ClickLoginButton(verb: string, rest: string)
    requires verb == "Click" && rest == "the Login button"
    ensures ParseStep(verb + " " + rest) == Click(ByRole(Button, "Login"))
  {
    assert LowerStr(verb) == "click";
    Sentence(verb, rest, A.Click);
    NoLinkInLoginButton(rest);
    LoginButton(rest);
  }

  lemma {:induction false} HomeLink(rest: string)
    requires rest == "on the Home link"
    ensures Search(rest, LinkAt) == Some("Home")
  {
    assert rest == OnThe + "Home" + LinkWord;
    LinkParts("Home");
  }

  /** "Click on the Home link" clicks the link named "Home". */
  lemma {:induction false} ClickOnTheHomeLink(verb: string, rest: string)
    requires verb == "Click" && rest == "on the Home link"
    ensures ParseStep(verb + " " + rest) == Click(ByRole(Link, "Home"))
  {
    assert LowerStr(verb) == "click";
    Sentence(verb, rest, A.Click);
    HomeLink(rest);
  }

  lemma {:induction false} TheHomeLink(rest: string)
    requires rest == "the Home link"
    ensures Search(rest, LinkAt) == Some("the Home")
  {
    assert rest == "the Home" + LinkWord;
    LinkBare("the Home");
  }

  /** Without `on`, the article stays in the link's name: "Click the Home
      link" clicks the link named "the Home". */
  lemma {:induction false} ClickTheHomeLink(verb: string, rest: string)
    requires verb == "Click" && rest == "the Home link"
    ensures ParseStep(verb + " " + rest) == Click(ByRole(Link, "the Home"))
  {
    assert LowerStr(verb) == "click";
    Sentence(verb, rest, A.Click);
    TheHomeLink(rest);
  }

  /** The username field of "Fill the username field with admin". */
  lemma {:induction false} UsernameField(name: string, value: string)
    requires name == "username" && value == "admin"
    ensures Search(The + name + FieldWith + value, FieldWithAt) == Some((name, value))
  {
    FieldWithParts(name, value);
  }

  /** "Fill the username field with admin" enters "admin" in the input
      named "username". */
  lemma {:induction false} FillUsername(verb: string, name: string, value: string)
    requires verb == "Fill" && name == "username" && value == "admin"
    ensures ParseStep(verb + " " + The + name + FieldWith + value) == Fill(Input, name, value)
  {
    var rest := The + name + FieldWith + value;
    assert verb + " " + The + name + FieldWith + value == verb + " " + rest;
    assert LowerStr(verb) == "fill";
    Sentence(verb, rest, A.Fill);
    UsernameField(name, value);
  }
  /** The option and dropdown of "Select Gold from the plan dropdown". */
  lemma {:induction false} GoldFromPlan(value: string, name: string)
    requires value == "Gold" && name == "plan"
    ensures Search(value + FromThe + name + DropdownWord, SelectAt) == Some((value, name))
  {
    SelectParts(value, name);
  }

  /** "Select Gold from the plan dropdown" picks the option "Gold" of the
      dropdown named "plan". */
  lemma {:induction false} SelectGold(verb: string, value: string, name: string)
    requires verb == "Select" && value == "Gold" && name == "plan"
    ensures ParseStep(verb + " " + value + FromThe + name + DropdownWord) == Select(name, value)
  {
    var rest := value + FromThe + name + DropdownWord;
    assert verb + " " + value + FromThe + name + DropdownWord == verb + " " + rest;
    assert LowerStr(verb) == "select";
    Sentence(verb, rest, A.Select);
    GoldFromPlan(value, name);
  }

  /** The scope and text of "Verify that the page contains 'Welcome'". */
  lemma {:induction false} PageContainsWelcome(scope: string, value: string)
    requires scope == "the page" && value == "Welcome"
    ensures Search(That + scope + ContainsQuote + value + Quote, ExpectAt) == Some((scope, value))
  {
    ExpectParts(scope, value);
  }

  /** "Verify that the page contains 'Welcome'" expects the text "Welcome"
      in the scope "the page". */
  lemma {:induction false} VerifyWelcome(verb: string, scope: string, value: string)
    requires verb == "Verify" && scope == "the page" && value == "Welcome"
    ensures ParseStep(verb + " " + That + scope + ContainsQuote + value + Quote) == Expect(scope, value)
  {
    var rest := That + scope + ContainsQuote + value + Quote;
    assert verb + " " + That + scope + ContainsQuote + value + Quote == verb + " " + rest;
    assert LowerStr(verb) == "verify";
    Sentence(verb, rest, A.Expect);
    PageContainsWelcome(scope, value);
  }

  /** After `to `, the rest of a one-line remainder is the destination. */
  lemma {:induction false} ToDestination(address: string, step: string)
    requires address != [] && '\n' !in address
    ensures ParseGoto(To + address, step) == Goto(address)
  {
    var rest := To + address;
    assert rest[..|To|] == To;
    LitAtIs(rest, 0, To);
    assert '\n' !in rest by {
      forall k | 0 <= k < |rest| ensures rest[k] != '\n' {
        if k >= |To| { assert rest[k] == address[k - |To|]; }
      }
    }
    assert rest[|To|..] == address;
    GotoCases(rest, step);
  }

  /** "Go to https://example.com/login": a navigation verb, `to ` and a
      one-line address navigate to that address; the optional `to ` is not
      part of the destination. */
  lemma {:induction false} GoToAddress(verb: string, address: string)
    requires verb != [] && forall k :: 0 <= k < |verb| ==> !IsSpace(verb[k])
    requires LowerStr(verb) in A.Synonyms(A.Goto)
    requires address != [] && '\n' !in address && !IsSpace(address[|address| - 1])
    ensures ParseStep(verb + " " + To + address) == Goto(address)
  {
    var rest := To + address;
    Assoc(verb + " ", To, address);
    assert rest[0] == To[0] && rest[|rest| - 1] == address[|address| - 1];
    GotoSentence(verb, rest);
    ToDestination(address, verb + " " + rest);
  }

  /** A navigation verb hands the rest of its sentence to the goto pattern. */
  lemma {:induction false} GotoSentence(verb: string, rest: string)
    requires verb != [] && forall k :: 0 <= k < |verb| ==> !IsSpace(verb[k])
    requires Stripped(rest) && LowerStr(verb) in A.Synonyms(A.Goto)
    ensures ParseStep(verb + " " + rest) == ParseGoto(rest, verb + " " + rest)
  {
    Sentence(verb, rest, A.Goto);
  }

  /** "Go to https://example.com/login" goes to the address. */
  lemma {:induction false} GoToLogin(verb: string, address: string)
    requires verb == "Go" && address == "https://example.com/login"
    ensures ParseStep(verb + " " + To + address) == Goto(address)
  {
    assert LowerStr(verb) == "go";
    GoToAddress(verb, address);
  }

  /** A numeral after a waiting verb is the number of seconds. */
  lemma {:induction false} WaitNumeralRest(n: nat, step: string)
    ensures Extract(A.WaitFor, Numeral(n), step) == WaitFor(n)
  {
    var rest := Numeral(n);
    assert rest == [] + rest + [];
    WaitNumeral(rest, step, [], n, []);
  }

  /** "Wait 5", "aspetta 10": a waiting verb, in any case, followed by a
      number waits that many seconds. */
  lemma {:induction false} WaitSeconds(verb: string, n: nat)
    requires verb != [] && forall k :: 0 <= k < |verb| ==> !IsSpace(verb[k])
    requires LowerStr(verb) in A.Synonyms(A.WaitFor)
    ensures ParseStep(verb + " " + Numeral(n)) == WaitFor(n)
  {
    Sentence(verb, Numeral(n), A.WaitFor);
    WaitNumeralRest(n, verb + " " + Numeral(n));
  }

  /** The numeral of five is the one-digit text `5`. */
  lemma {:induction false} NumeralFive(verb: string)
    ensures verb + " " + Numeral(5) == verb + " 5"
  {
    assert Numeral(5) == "5";
  }

  /** "Wait 5" waits five seconds. */
  lemma {:induction false} WaitFive(verb: string)
    requires verb == "Wait"
    ensures ParseStep(verb + " 5") == WaitFor(5)
  {
    assert LowerStr(verb) == "wait";
    WaitSeconds(verb, 5);
    NumeralFive(verb);
  }

  /** So does the Italian "Aspetta 5". */
  lemma {:induction false} AspettaFive(verb: string)
    requires verb == "Aspetta"
    ensures ParseStep(verb + " 5") == WaitFor(5)
  {
    assert LowerStr(verb) == "aspetta";
    WaitSeconds(verb, 5);
    NumeralFive(verb);
  }

  /** The verb of "Frobnicate the widget" is not in the table. */
  lemma {:induction false} FrobnicateUnknown(verb: string)
    requires verb == "Frobnicate"
    ensures LowerStr(verb) !in A.ActionMap
  {
    var key := LowerStr(verb);
    assert key == "frobnicate";
    forall a ensures key !in A.Synonyms(a) {
    }
    A.NotAVerb(key);
  }

  /** A sentence whose verb is not in the table is kept as a TODO, whatever
      follows the verb and its space: "Frobnicate the widget". */
  lemma {:induction false} FrobnicateIsTodo(verb: string, rest: string)
    requires verb == "Frobnicate"
    ensures ParseStep(verb + " " + rest) == Todo(verb + " " + rest)
  {
    var step := verb + " " + rest;
    assert step[..|verb|] == verb && step[|verb|] == ' ';
    assert forall k :: 0 <= k < |verb| ==> step[k] == verb[k];
    FirstTokenIs(step, |verb|);
    FrobnicateUnknown(verb);
    UnknownIsTodo(step);
  }

  /** A stripped sentence without terminators is a description of one
      step. */
  lemma {:induction false} SingleStep(s: string)
    requires Stripped(s) && NoTerminator(s)
    ensures ParseSteps(s) == [ParseStep(s)]
  {
    StripStripped(s);
    OneSentence(s);
  }

  /** A navigation sentence written without terminators is a description
      of one goto step. */
  lemma {:induction false} GotoDescription(verb: string, address: string)
    requires verb != [] && forall k :: 0 <= k < |verb| ==> !IsSpace(verb[k]) && !IsTerminator(verb[k])
    requires LowerStr(verb) in A.Synonyms(A.Goto)
    requires address != [] && '\n' !in address && !IsSpace(address[|address| - 1]) && NoTerminator(address)
    ensures ParseSteps(verb + " " + To + address) == [Goto(address)]
  {
    var a := verb + " " + To + address;
    assert forall k :: 0 <= k < |a| ==> !IsTerminator(a[k]) by {
      forall k | 0 <= k < |a| ensures !IsTerminator(a[k]) {
        if k < |verb| { assert a[k] == verb[k]; }
        else if k >= |verb| + 1 + |To| { assert a[k] == address[k - |verb| - 1 - |To|]; }
      }
    }
    assert a[0] == verb[0] && a[|a| - 1] == address[|address| - 1];
    SingleStep(a);
    GoToAddress(verb, address);
  }

  /** A verb, a space and a stripped rest, without terminators and closed by
      a terminator, is a description of the one step of that sentence. */
  lemma {:induction false} TerminatedSentence(verb: string, rest: string, t: char)
    requires verb != [] && forall k :: 0 <= k < |verb| ==> !IsSpace(verb[k]) && !IsTerminator(verb[k])
    requires Stripped(rest) && NoTerminator(rest) && IsTerminator(t)
    ensures ParseSteps(verb + " " + rest + [t]) == [ParseStep(verb + " " + rest)]
  {
    var a := verb + " " + rest;
    assert NoTerminator(a) by {
      forall k | 0 <= k < |a| ensures !IsTerminator(a[k]) {
        if k < |verb| { assert a[k] == verb[k]; }
        else if k > |verb| { assert a[k] == rest[k - |verb| - 1]; }
      }
    }
    assert a[0] == verb[0] && a[|a| - 1] == rest[|rest| - 1];
    ParseStepsTerminated(a, t);
  }

  /** "Click the Login button." is a description of one step, the click on
      the button named "Login". */
  lemma {:induction false} ClickLoginButtonSteps(verb: string, rest: string)
    requires verb == "Click" && rest == "the Login button"
    ensures ParseSteps(verb + " " + rest + ".") == [Click(ByRole(Button, "Login"))]
  {
    assert forall k :: 0 <= k < |verb| ==> !IsSpace(verb[k]) && !IsTerminator(verb[k]);
    assert forall k :: 0 <= k < |rest| ==> !IsTerminator(rest[k]);
    TerminatedSentence(verb, rest, '.');
    ClickLoginButton(verb, rest);
  }

  /** "Frobnicate the widget." is a description of one TODO step carrying
      the sentence without its full stop. */
  lemma {:induction false} FrobnicateSteps(verb: string, rest: string)
    requires verb == "Frobnicate" && rest == "the widget"
    ensures ParseSteps(verb + " " + rest + ".") == [Todo(verb + " " + rest)]
  {
    assert forall k :: 0 <= k < |verb| ==> !IsSpace(verb[k]) && !IsTerminator(verb[k]);
    assert forall k :: 0 <= k < |rest| ==> !IsTerminator(rest[k]);
    TerminatedSentence(verb, rest, '.');
    FrobnicateIsTodo(verb, rest);
  }

  /** "Go to https://example" is one goto step. */
  lemma {:induction false} GoToHost(verb: string, host: string)
    requires verb == "Go" && host == "https://example"
    ensures ParseSteps(verb + " " + To + host) == [Goto(host)]
  {
    assert forall k :: 0 <= k < |host| ==> !IsTerminator(host[k]) && host[k] != '\n';
    assert forall k :: 0 <= k < |verb| ==> !IsSpace(verb[k]) && !IsTerminator(verb[k]);
    assert LowerStr(verb) == "go";
    GotoDescription(verb, host);
  }

  /** The word of "com" on its own is not a verb of the table. */
  lemma {:induction false} ComUnknown(domain: string)
    requires domain == "com"
    ensures LowerStr(domain) !in A.ActionMap
  {
    var key := LowerStr(domain);
    assert key == "com";
    assert key[0] == 'c' && key[1] == 'o';
    forall a ensures key !in A.Synonyms(a) {
    }
    A.NotAVerb(key);
  }

  /** A single word that is not a verb is a TODO step. */
  lemma {:induction false} UnknownWord(w: string)
    requires w != [] && forall k :: 0 <= k < |w| ==> !IsSpace(w[k])
    requires LowerStr(w) !in A.ActionMap
    ensures ParseStep(w) == Todo(w)
  {
    FirstTokenIs(w, |w|);
    assert w[..|w|] == w;
    UnknownIsTodo(w);
  }

  /** "com" on its own is a TODO step. */
  lemma {:induction false} DomainIsTodo(domain: string)
    requires domain == "com"
    ensures ParseSteps(domain) == [Todo(domain)]
  {
    assert forall k :: 0 <= k < |domain| ==> !IsSpace(domain[k]) && !IsTerminator(domain[k]);
    ComUnknown(domain);
    UnknownWord(domain);
    SingleStep(domain);
  }

  /** The dot of an address ends the sentence: "Go to https://example.com"
      gives a step to "https://example" followed by the TODO "com". */
  lemma {:induction false} AddressSplitAtDot(verb: string, host: string, domain: string)
    requires verb == "Go" && host == "https://example" && domain == "com"
    ensures ParseSteps(verb + " " + To + host + "." + domain) == [Goto(host), Todo(domain)]
  {
    var a := verb + " " + To + host;
    assert verb + " " + To + host + "." + domain == a + ['.'] + domain;
    ParseStepsAppend(a, '.', domain);
    GoToHost(verb, host);
    DomainIsTodo(domain);
  }
}
