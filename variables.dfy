/** Variable substitution: every `{{ name }}` placeholder of the description
    whose name is in the mapping is replaced by its value, and every other
    placeholder is kept verbatim, braces included.  This is a left-to-right
    scan that matches `{{\s*(\w+)\s*}}` where it can and otherwise copies
    one character and moves on, as `re.sub` does. */
module Variables {
  import opened Text

  /** A match of the placeholder pattern at the start of a string: the
      name between the braces and the number of characters matched. */
  datatype Placeholder = Placeholder(key: string, length: nat)

  /** A name the pattern accepts: one or more word characters. */
  predicate IsKey(k: string) {
    k != [] && forall i :: 0 <= i < |k| ==> IsWordChar(k[i])
  }

  /** The text of a placeholder with the given whitespace around its name. */
  function PlaceholderText(lead: string, key: string, trail: string): string {
    "{{" + lead + key + trail + "}}"
  }

  /** The pattern `{{\s*(\w+)\s*}}` anchored at the start of `s`.  The three
      runs cannot overlap (whitespace is never a word character), so the
      backtracking matcher can only succeed with each run maximal. */
  function MatchPlaceholder(s: string): (r: Option<Placeholder>)
    ensures r.Some? ==> IsKey(r.value.key) && 5 <= r.value.length <= |s|
    ensures r.Some? ==> exists lead, trail :: Blank(lead) && Blank(trail)
                          && s[..r.value.length] == PlaceholderText(lead, r.value.key, trail)
  {
    if |s| < 2 || s[0] != '{' || s[1] != '{' then None
    else
      var a := RunEnd(s, 2, Space);
      var b := RunEnd(s, a, Word);
      var c := RunEnd(s, b, Space);
      if a < b && c + 2 <= |s| && s[c] == '}' && s[c + 1] == '}' then
        PlaceholderShape(s, a, b, c);
        Some(Placeholder(s[a..b], c + 2))
      else
        None
  }

  /** A match cut at the ends of its three runs: blank text, a name and
      blank text between the braces. */
  lemma {:induction false} PlaceholderShape(s: string, a: nat, b: nat, c: nat)
    requires 2 <= a < b <= c && c + 2 <= |s|
    requires s[0] == '{' && s[1] == '{' && s[c] == '}' && s[c + 1] == '}'
    requires forall k :: 2 <= k < a ==> InClass(s[k], Space)
    requires forall k :: a <= k < b ==> InClass(s[k], Word)
    requires forall k :: b <= k < c ==> InClass(s[k], Space)
    ensures IsKey(s[a..b]) && Blank(s[2..a]) && Blank(s[b..c])
    ensures s[..c + 2] == PlaceholderText(s[2..a], s[a..b], s[b..c])
  {
    forall k | 0 <= k < a - 2 ensures IsSpace(s[2..a][k]) {
      assert s[2..a][k] == s[2 + k] && InClass(s[2 + k], Space);
    }
    forall k | 0 <= k < b - a ensures IsWordChar(s[a..b][k]) {
      assert s[a..b][k] == s[a + k] && InClass(s[a + k], Word);
    }
    forall k | 0 <= k < c - b ensures IsSpace(s[b..c][k]) {
      assert s[b..c][k] == s[b + k] && InClass(s[b + k], Space);
    }
    assert s[..2] == "{{" && s[c..c + 2] == "}}";
    assert s[..c + 2] == s[..2] + s[2..a] + s[a..b] + s[b..c] + s[c..c + 2];
  }

  /** `apply_variables(text, variables)`. */
  function ApplyVariables(text: string, vars: map<string, string>): string
    decreases |text|
  {
    if text == [] then []
    else
      match MatchPlaceholder(text)
      case Some(m) =>
        (if m.key in vars then vars[m.key] else text[..m.length])
        + ApplyVariables(text[m.length..], vars)
      case None =>
        [text[0]] + ApplyVariables(text[1..], vars)
  }

  /** With an empty mapping every placeholder is unknown, so the text comes
      back unchanged. */
  lemma {:induction false} EmptyMappingIdentity(text: string)
    ensures ApplyVariables(text, map[]) == text
    decreases |text|
  {
    if text != [] {
      match MatchPlaceholder(text)
      case Some(m) =>
        EmptyMappingIdentity(text[m.length..]);
        assert text == text[..m.length] + text[m.length..];
      case None =>
        EmptyMappingIdentity(text[1..]);
        assert text == [text[0]] + text[1..];
    }
  }

  /** Literal text in which no placeholder can start: every `{` is followed,
      within the text, by a character other than `{`.  Text such as
      `Type {name} here` or `a { b` qualifies; `{{` and a trailing `{` do
      not. */
  predicate BraceSafe(t: string) {
    forall k :: 0 <= k < |t| && t[k] == '{' ==> k + 1 < |t| && t[k + 1] != '{'
  }

  /** A description viewed as a template: brace-safe literal text, and
      placeholders. */
  datatype Segment = Literal(text: string) | Slot(lead: string, key: string, trail: string)

  predicate WellFormed(g: Segment) {
    match g
    case Literal(t) => BraceSafe(t)
    case Slot(lead, key, trail) => Blank(lead) && IsKey(key) && Blank(trail)
  }

  predicate AllWellFormed(gs: seq<Segment>) {
    forall i :: 0 <= i < |gs| ==> WellFormed(gs[i])
  }

  function SegmentText(g: Segment): string {
    match g
    case Literal(t) => t
    case Slot(lead, key, trail) => PlaceholderText(lead, key, trail)
  }

  /** The text a template stands for. */
  function Render(gs: seq<Segment>): string {
    if gs == [] then [] else SegmentText(gs[0]) + Render(gs[1..])
  }

  /** What substitution is meant to produce from a template: each known
      placeholder becomes its value, each unknown one stays as written. */
  function Expand(gs: seq<Segment>, vars: map<string, string>): string {
    if gs == [] then []
    else
      (match gs[0]
       case Literal(t) => t
       case Slot(_, key, _) => if key in vars then vars[key] else SegmentText(gs[0]))
      + Expand(gs[1..], vars)
  }

  /** Where no placeholder starts, the scan copies one character. */
  lemma {:induction false} ApplyCopies(s: string, vars: map<string, string>)
    requires s != [] && MatchPlaceholder(s).None?
    ensures ApplyVariables(s, vars) == [s[0]] + ApplyVariables(s[1..], vars)
  {
  }

  /** A character other than `{`, or a `{` followed by another character,
      starts no match, so the scan copies it. */
  lemma {:induction false} ApplyCopiesChar(c: char, rest: string, vars: map<string, string>)
    requires c != '{' || (rest != [] && rest[0] != '{')
    ensures ApplyVariables([c] + rest, vars) == [c] + ApplyVariables(rest, vars)
  {
    var s := [c] + rest;
    assert s[0] == c && s[1..] == rest;
    assert |s| >= 2 ==> s[1] == rest[0];
    ApplyCopies(s, vars);
  }

  /** Copying brace-safe literal text never starts a match. */
  lemma {:induction false} ApplyLiteralPrefix(t: string, rest: string, vars: map<string, string>)
    requires BraceSafe(t)
    ensures ApplyVariables(t + rest, vars) == t + ApplyVariables(rest, vars)
    decreases |t|
  {
    if t == [] {
      assert t + rest == rest;
    } else {
      var u := t[1..];
      assert t == [t[0]] + u;
      assert BraceSafe(u) by {
        forall k | 0 <= k < |u| && u[k] == '{' ensures k + 1 < |u| && u[k + 1] != '{' {
          assert u[k] == t[k + 1];
        }
      }
      assert t[0] == '{' ==> |u| > 0 && u[0] != '{' by {
        if t[0] == '{' {
          assert 1 < |t| && t[1] != '{';
        }
      }
      var out := ApplyVariables(rest, vars);
      Assoc([t[0]], u, rest);
      Assoc([t[0]], u, out);
      ApplyCopiesChar(t[0], u + rest, vars);
      ApplyLiteralPrefix(u, rest, vars);
    }
  }

  /** The pattern matches exactly a well-formed placeholder, whatever follows it. */
  lemma {:induction false} MatchSlot(lead: string, key: string, trail: string, rest: string)
    requires Blank(lead) && IsKey(key) && Blank(trail)
    ensures MatchPlaceholder(PlaceholderText(lead, key, trail) + rest)
            == Some(Placeholder(key, |PlaceholderText(lead, key, trail)|))
  {
    var p := PlaceholderText(lead, key, trail);
    var s := p + rest;
    var a := 2 + |lead|;
    var b := a + |key|;
    var c := b + |trail|;
    assert s[0] == '{' && s[1] == '{';
    assert forall k :: 2 <= k < a ==> s[k] == lead[k - 2] && IsSpace(lead[k - 2]);
    assert s[a] == key[0];
    RunEndIs(s, 2, Space, a);
    assert forall k :: a <= k < b ==> s[k] == key[k - a];
    assert s[b] == if trail == [] then '}' else trail[0];
    assert trail != [] ==> IsSpace(trail[0]);
    RunEndIs(s, a, Word, b);
    assert forall k :: b <= k < c ==> s[k] == trail[k - b] && IsSpace(trail[k - b]);
    assert s[c] == '}' && s[c + 1] == '}';
    RunEndIs(s, b, Space, c);
    assert s[a..b] == key;
  }

  /** A well-formed placeholder at the front is replaced when its name is
      known and kept when it is not; the scan then resumes right after it. */
  lemma {:induction false} ApplySlotPrefix(lead: string, key: string, trail: string, rest: string, vars: map<string, string>)
    requires Blank(lead) && IsKey(key) && Blank(trail)
    ensures ApplyVariables(PlaceholderText(lead, key, trail) + rest, vars)
            == (if key in vars then vars[key] else PlaceholderText(lead, key, trail))
               + ApplyVariables(rest, vars)
  {
    var p := PlaceholderText(lead, key, trail);
    MatchSlot(lead, key, trail, rest);
    assert (p + rest)[..|p|] == p;
    assert (p + rest)[|p|..] == rest;
  }

  /** Substitution does what it is meant to on every template: known
      placeholders are replaced by their values, unknown ones are left
      byte for byte, and the literal text around them is copied. */
  lemma {:induction false} ApplyTemplate(gs: seq<Segment>, vars: map<string, string>)
    requires AllWellFormed(gs)
    ensures ApplyVariables(Render(gs), vars) == Expand(gs, vars)
    decreases |gs|
  {
    if gs != [] {
      assert AllWellFormed(gs[1..]) by {
        forall i | 0 <= i < |gs| - 1 ensures WellFormed(gs[1..][i]) { assert gs[1..][i] == gs[i + 1]; }
      }
      assert WellFormed(gs[0]);
      ApplyTemplate(gs[1..], vars);
      match gs[0]
      case Literal(t) =>
        ApplyLiteralPrefix(t, Render(gs[1..]), vars);
      case Slot(lead, key, trail) =>
        ApplySlotPrefix(lead, key, trail, Render(gs[1..]), vars);
    }
  }

  /** One placeholder on its own. */
  lemma {:induction false} ApplyOnePlaceholder(lead: string, key: string, trail: string, vars: map<string, string>)
    requires Blank(lead) && IsKey(key) && Blank(trail)
    ensures ApplyVariables(PlaceholderText(lead, key, trail), vars)
            == if key in vars then vars[key] else PlaceholderText(lead, key, trail)
  {
    ApplySlotPrefix(lead, key, trail, [], vars);
    assert PlaceholderText(lead, key, trail) + [] == PlaceholderText(lead, key, trail);
  }

  /** The template left after substitution: known placeholders turned into
      literal text. */
  function Resolve(gs: seq<Segment>, vars: map<string, string>): (r: seq<Segment>)
    ensures |r| == |gs|
  {
    if gs == [] then []
    else
      [match gs[0]
       case Literal(t) => gs[0]
       case Slot(_, key, _) => if key in vars then Literal(vars[key]) else gs[0]]
      + Resolve(gs[1..], vars)
  }

  lemma {:induction false} ExpandIsResolved(gs: seq<Segment>, vars: map<string, string>)
    ensures Expand(gs, vars) == Render(Resolve(gs, vars))
    ensures Expand(Resolve(gs, vars), vars) == Render(Resolve(gs, vars))
    decreases |gs|
  {
    if gs != [] {
      ExpandIsResolved(gs[1..], vars);
      var r := Resolve(gs, vars);
      assert r[1..] == Resolve(gs[1..], vars);
    }
  }

  lemma {:induction false} ResolveWellFormed(gs: seq<Segment>, vars: map<string, string>)
    requires AllWellFormed(gs)
    requires forall k :: k in vars ==> BraceSafe(vars[k])
    ensures AllWellFormed(Resolve(gs, vars))
    decreases |gs|
  {
    if gs != [] {
      assert AllWellFormed(gs[1..]) by {
        forall i | 0 <= i < |gs| - 1 ensures WellFormed(gs[1..][i]) { assert gs[1..][i] == gs[i + 1]; }
      }
      assert WellFormed(gs[0]);
      ResolveWellFormed(gs[1..], vars);
      var r := Resolve(gs, vars);
      assert r[1..] == Resolve(gs[1..], vars);
      forall i | 0 <= i < |r| ensures WellFormed(r[i]) {
        if i > 0 { assert r[i] == r[1..][i - 1]; }
      }
    }
  }

  /** Substituting twice with the same mapping gives what substituting once
      gives, for a template whose values are brace-safe (so no value can
      start a new placeholder). */
  lemma {:induction false} ApplyIdempotent(gs: seq<Segment>, vars: map<string, string>)
    requires AllWellFormed(gs)
    requires forall k :: k in vars ==> BraceSafe(vars[k])
    ensures ApplyVariables(ApplyVariables(Render(gs), vars), vars) == ApplyVariables(Render(gs), vars)
  {
    ApplyTemplate(gs, vars);
    ExpandIsResolved(gs, vars);
    ResolveWellFormed(gs, vars);
    ApplyTemplate(Resolve(gs, vars), vars);
  }

  /** A `{` followed by `{{` starts no match (a name cannot begin with a
      brace), so the scan copies it. */
  lemma {:induction false} ApplyBraceBeforePlaceholderStart(rest: string, vars: map<string, string>)
    requires |rest| >= 2 && rest[0] == '{' && rest[1] == '{'
    ensures ApplyVariables("{" + rest, vars) == "{" + ApplyVariables(rest, vars)
  {
    var s := "{" + rest;
    RunEndIs(s, 2, Space, 2);
    RunEndIs(s, 2, Word, 2);
    ApplyCopies(s, vars);
    assert s[1..] == rest;
  }

  /** A placeholder with an extra pair of braces on each side: the scan
      passes over the outer opening braces, substitutes the inner
      placeholder and copies the outer closing braces. */
  lemma {:induction false} ApplyBraced(key: string, vars: map<string, string>)
    requires IsKey(key)
    ensures ApplyVariables("{{" + PlaceholderText("", key, "") + "}}", vars)
            == "{{" + (if key in vars then vars[key] else PlaceholderText("", key, "")) + "}}"
  {
    var p := PlaceholderText("", key, "");
    var out := if key in vars then vars[key] else p;
    var close := "}}";
    ApplySlotPrefix("", key, "", close, vars);
    ApplyClosing(vars);
    var r1 := p + close;
    PlaceholderOpens("", key, "");
    assert r1[0] == p[0] && r1[1] == p[1];
    ApplyOpenBraces(r1, vars);
    Assoc("{{", p, close);
    Assoc("{{", out, close);
  }

  /** Two braces before a placeholder are copied. */
  lemma {:induction false} ApplyOpenBraces(r: string, vars: map<string, string>)
    requires |r| >= 2 && r[0] == '{' && r[1] == '{'
    ensures ApplyVariables("{{" + r, vars) == "{{" + ApplyVariables(r, vars)
  {
    ApplyBraceBeforePlaceholderStart(r, vars);
    var r2 := "{" + r;
    ApplyBraceBeforePlaceholderStart(r2, vars);
    Assoc("{", "{", r);
    Assoc("{", "{", ApplyVariables(r, vars));
    assert "{" + "{" == "{{";
  }

  /** Closing braces on their own are copied. */
  lemma {:induction false} ApplyClosing(vars: map<string, string>)
    ensures ApplyVariables("}}", vars) == "}}"
  {
    ApplyLiteralPrefix("}}", [], vars);
    assert "}}" + [] == "}}";
  }

  /** Every placeholder opens with two braces. */
  lemma {:induction false} PlaceholderOpens(lead: string, key: string, trail: string)
    ensures |PlaceholderText(lead, key, trail)| >= 4
    ensures PlaceholderText(lead, key, trail)[0] == '{' && PlaceholderText(lead, key, trail)[1] == '{'
  {
  }

  /** Without the template condition substitution is not idempotent, even
      when no value holds a brace: if `a` maps to `b` and `b` to `c`, one
      pass turns `{{{{a}}}}` into `{{b}}` and a second pass into `c`. */
  lemma {:induction false} SubstitutionNotIdempotent(k1: string, k2: string, vars: map<string, string>)
    requires IsKey(k1) && IsKey(k2) && k1 in vars && vars[k1] == k2 && k2 in vars
    requires '{' !in vars[k2]
    ensures ApplyVariables("{{" + PlaceholderText("", k1, "") + "}}", vars) == PlaceholderText("", k2, "")
    ensures ApplyVariables(ApplyVariables("{{" + PlaceholderText("", k1, "") + "}}", vars), vars) == vars[k2]
    ensures vars[k2] != PlaceholderText("", k2, "")
  {
    var p2 := PlaceholderText("", k2, "");
    ApplyBraced(k1, vars);
    PlaceholderBare(k2);
    assert Blank("");
    ApplyOnePlaceholder("", k2, "", vars);
    PlaceholderOpens("", k2, "");
    assert p2[0] in p2;
  }

  /** A placeholder without whitespace is its name in double braces. */
  lemma {:induction false} PlaceholderBare(key: string)
    ensures PlaceholderText("", key, "") == "{{" + key + "}}"
  {
    assert "{{" + "" + key == "{{" + key;
  }
}
