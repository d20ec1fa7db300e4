/** The verb table: 22 English and Italian verbs, each mapped to one of the
    six canonical actions, and the case-insensitive lookup of a sentence's
    first token in it. */
module Actions {
  import opened Text

  datatype Action = Click | Fill | Select | Expect | Goto | WaitFor

  /** The name the source gives each canonical action. */
  function Name(a: Action): string {
    match a
    case Click => "click"
    case Fill => "fill"
    case Select => "select"
    case Expect => "expect"
    case Goto => "goto"
    case WaitFor => "waitFor"
  }

  lemma NamesDistinct(a: Action, b: Action)
    ensures Name(a) == Name(b) <==> a == b
  {
  }

  /** No action is named `TODO`, the name of a step that performs none. */
  lemma NameIsNotTodo(a: Action)
    ensures Name(a) != "TODO"
  {
    assert Name(a)[0] != 'T';
  }

  /** The verb table itself, keyed by lower-case verb. */
  const ActionMap: map<string, Action> := map[
    "click" := Click,
    "clicca" := Click,
    "press" := Click,
    "premi" := Click,
    "fill" := Fill,
    "type" := Fill,
    "enter" := Fill,
    "inserisci" := Fill,
    "digita" := Fill,
    "select" := Select,
    "seleziona" := Select,
    "expect" := Expect,
    "verify" := Expect,
    "check" := Expect,
    "verifica" := Expect,
    "controlla" := Expect,
    "go" := Goto,
    "navigate" := Goto,
    "vai" := Goto,
    "apri" := Goto,
    "wait" := WaitFor,
    "aspetta" := WaitFor
  ]

  /** The same vocabulary organised by action: the synonyms of each action
      in the two languages. */
  function Synonyms(a: Action): set<string> {
    match a
    case Click => {"click", "clicca", "press", "premi"}
    case Fill => {"fill", "type", "enter", "inserisci", "digita"}
    case Select => {"select", "seleziona"}
    case Expect => {"expect", "verify", "check", "verifica", "controlla"}
    case Goto => {"go", "navigate", "vai", "apri"}
    case WaitFor => {"wait", "aspetta"}
  }

  /** The table maps a verb to an action exactly when the verb is one of
      that action's synonyms; so every verb has one action, and every
      action has at least one verb. */
  lemma {:induction false} ActionMapIsSynonyms(v: string, a: Action)
    ensures v in ActionMap && ActionMap[v] == a <==> v in Synonyms(a)
  {
    if v in ActionMap {
      assert v in Synonyms(ActionMap[v]);
      if ActionMap[v] != a {
        SynonymsOfOthers(v, ActionMap[v], a);
      }
    } else {
      assert v !in Synonyms(a);
    }
  }

  lemma {:induction false} SynonymsOfOthers(v: string, a: Action, b: Action)
    requires v in Synonyms(a) && a != b
    ensures v !in Synonyms(b)
  {
    SynonymsDisjoint(a, b);
    assert v !in Synonyms(a) * Synonyms(b);
  }

  /** Every action is named by at least one verb. */
  lemma EveryActionHasAVerb(a: Action)
    ensures exists v :: v in ActionMap && ActionMap[v] == a
  {
    var v := match a
      case Click => "click"
      case Fill => "fill"
      case Select => "select"
      case Expect => "expect"
      case Goto => "go"
      case WaitFor => "wait";
    ActionMapIsSynonyms(v, a);
  }

  /** No verb is a synonym of two different actions. */
  lemma SynonymsDisjoint(a: Action, b: Action)
    requires a != b
    ensures Synonyms(a) * Synonyms(b) == {}
  {
  }

  lemma {:induction false} DisjointUnionSize(x: set<string>, y: set<string>)
    requires x * y == {}
    ensures |x + y| == |x| + |y|
  {
  }

  lemma {:induction false} DisjointAfterUnion(x: set<string>, y: set<string>, z: set<string>)
    requires x * z == {} && y * z == {}
    ensures (x + y) * z == {}
  {
    assert forall v :: v in (x + y) * z ==> v in x * z || v in y * z;
  }

  /** The verb table is the union of the six synonym sets. */
  lemma KeysAreSynonyms()
    ensures ActionMap.Keys == Synonyms(Click) + Synonyms(Fill) + Synonyms(Select)
                              + Synonyms(Expect) + Synonyms(Goto) + Synonyms(WaitFor)
  {
  }

  lemma SynonymCounts()
    ensures |Synonyms(Click)| == 4 && |Synonyms(Fill)| == 5 && |Synonyms(Select)| == 2
    ensures |Synonyms(Expect)| == 5 && |Synonyms(Goto)| == 4 && |Synonyms(WaitFor)| == 2
  {
  }

  /** The table has 22 distinct verbs: the synonym sets are pairwise
      disjoint and their sizes add up to 22. */
  lemma ActionMapSize()
    ensures |ActionMap| == 22
  {
    KeysAreSynonyms();
    SynonymCounts();
    var c, f, s, e, g, w := Synonyms(Click), Synonyms(Fill), Synonyms(Select),
                            Synonyms(Expect), Synonyms(Goto), Synonyms(WaitFor);
    SynonymsDisjoint(Click, Fill);
    DisjointUnionSize(c, f);
    SynonymsDisjoint(Click, Select);
    SynonymsDisjoint(Fill, Select);
    DisjointAfterUnion(c, f, s);
    DisjointUnionSize(c + f, s);
    SynonymsDisjoint(Click, Expect);
    SynonymsDisjoint(Fill, Expect);
    SynonymsDisjoint(Select, Expect);
    DisjointAfterUnion(c, f, e);
    DisjointAfterUnion(c + f, s, e);
    DisjointUnionSize(c + f + s, e);
    SynonymsDisjoint(Click, Goto);
    SynonymsDisjoint(Fill, Goto);
    SynonymsDisjoint(Select, Goto);
    SynonymsDisjoint(Expect, Goto);
    DisjointAfterUnion(c, f, g);
    DisjointAfterUnion(c + f, s, g);
    DisjointAfterUnion(c + f + s, e, g);
    DisjointUnionSize(c + f + s + e, g);
    SynonymsDisjoint(Click, WaitFor);
    SynonymsDisjoint(Fill, WaitFor);
    SynonymsDisjoint(Select, WaitFor);
    SynonymsDisjoint(Expect, WaitFor);
    SynonymsDisjoint(Goto, WaitFor);
    DisjointAfterUnion(c, f, w);
    DisjointAfterUnion(c + f, s, w);
    DisjointAfterUnion(c + f + s, e, w);
    DisjointAfterUnion(c + f + s + e, g, w);
    DisjointUnionSize(c + f + s + e + g, w);
  }

  /** Every key is already lower case and holds no whitespace, so each one is
      reachable by looking up a lower-cased token. */
  lemma {:induction false} KeysAreLowerTokens(v: string)
    requires v in ActionMap
    ensures v != [] && LowerStr(v) == v
    ensures forall k :: 0 <= k < |v| ==> !IsSpace(v[k])
  {
    ActionMapIsSynonyms(v, ActionMap[v]);
    assert LowerWord(v);
    LowerWordIsToken(v);
  }

  /** A word that is no action's synonym is not in the table. */
  lemma {:induction false} NotAVerb(v: string)
    requires forall a :: v !in Synonyms(a)
    ensures v !in ActionMap
  {
    if v in ActionMap {
      ActionMapIsSynonyms(v, ActionMap[v]);
    }
  }

  /** The six actions, in the order the table first names them. */
  const AllActions: seq<Action> := [Click, Fill, Select, Expect, Goto, WaitFor]

  /** The first of `actions` that has `key` among its synonyms. */
  function FirstNaming(key: string, actions: seq<Action>): Option<Action> {
    if actions == [] then None
    else if key in Synonyms(actions[0]) then Some(actions[0])
    else FirstNaming(key, actions[1..])
  }

  /** Since no verb is a synonym of two actions, the search names `a`
      exactly when `a` is among the actions searched and `key` is one of
      its synonyms. */
  lemma {:induction false} FirstNamingIs(key: string, actions: seq<Action>, a: Action)
    ensures FirstNaming(key, actions) == Some(a) <==> a in actions && key in Synonyms(a)
    decreases |actions|
  {
    if actions != [] {
      FirstNamingIs(key, actions[1..], a);
      if actions[0] != a {
        SynonymsDisjoint(actions[0], a);
      }
      assert a in actions <==> a == actions[0] || a in actions[1..];
    }
  }

  /** `ACTION_MAP.get(verb.lower())`: the action a token names, in any
      letter case, or nothing when the token is not one of the 22 verbs.
      The table is consulted one action's synonyms at a time, which by
      `LookupIsTableEntry` is the same as consulting it whole. */
  function Lookup(token: string): Option<Action> {
    FirstNaming(LowerStr(token), AllActions)
  }

  /** A token whose lower-case form is a synonym of `a` names `a`, and a
      token naming something is a synonym of what it names. */
  lemma {:induction false} LookupIsSynonym(token: string, a: Action)
    ensures Lookup(token) == Some(a) <==> LowerStr(token) in Synonyms(a)
  {
    FirstNamingIs(LowerStr(token), AllActions, a);
    assert a in AllActions by {
      match a
      case Click => assert AllActions[0] == a;
      case Fill => assert AllActions[1] == a;
      case Select => assert AllActions[2] == a;
      case Expect => assert AllActions[3] == a;
      case Goto => assert AllActions[4] == a;
      case WaitFor => assert AllActions[5] == a;
    }
  }

  /** The lookup gives the table's entry for the lower-cased token, and
      nothing when the table has none. */
  lemma {:induction false} LookupIsTableEntry(token: string)
    ensures LowerStr(token) in ActionMap ==> Lookup(token) == Some(ActionMap[LowerStr(token)])
    ensures LowerStr(token) !in ActionMap ==> Lookup(token).None?
  {
    var key := LowerStr(token);
    if key in ActionMap {
      ActionMapIsSynonyms(key, ActionMap[key]);
      LookupIsSynonym(token, ActionMap[key]);
    } else {
      forall a ensures Lookup(token) != Some(a) {
        ActionMapIsSynonyms(key, a);
        LookupIsSynonym(token, a);
      }
    }
  }

  /** Lookup ignores letter case: two tokens that agree up to case name the
      same action. */
  lemma {:induction false} LookupIgnoresCase(t1: string, t2: string)
    requires |t1| == |t2|
    requires forall k :: 0 <= k < |t1| ==> Lower(t1[k]) == Lower(t2[k])
    ensures Lookup(t1) == Lookup(t2)
  {
    assert LowerStr(t1) == LowerStr(t2);
  }
}
