/** The eight extraction patterns of the step parser, each written out as
    the match the backtracking regex engine finds, plus `re.search`'s
    leftmost-position rule.  Keywords compare case-insensitively; captured
    text is returned as written.  The regex `.` does not match a line feed,
    so every `.+` capture stays on the line where it starts. */
module Patterns {
  import opened Text

  const OnThe := "on the "
  const The := "the "
  const That := "that "
  const To := "to "
  const LinkWord := " link"
  const ButtonWord := " button"
  const FieldWith := " field with "
  const TextareaWith := " textarea with "
  const FromThe := " from the "
  const DropdownWord := " dropdown"
  const ContainsQuote := " contains '"
  const Quote := "'"

  /** `re.search`: the first position, from `p` up to and including `|s|`,
      at which the anchored matcher `at` succeeds, with what it captured. */
  function Leftmost<T>(s: string, at: (string, nat) -> Option<T>, p: nat): Option<(nat, T)>
    decreases |s| + 1 - p
  {
    if p > |s| then None
    else
      match at(s, p)
      case Some(v) => Some((p, v))
      case None => Leftmost(s, at, p + 1)
  }

  /** The search finds the leftmost position at which the matcher succeeds,
      and fails only when it succeeds at no position. */
  lemma {:induction false} LeftmostFirst<T>(s: string, at: (string, nat) -> Option<T>, p: nat)
    ensures var r := Leftmost(s, at, p);
      (r.Some? ==> p <= r.value.0 <= |s| && at(s, r.value.0) == Some(r.value.1))
      && (r.Some? ==> forall q :: p <= q < r.value.0 ==> at(s, q).None?)
      && (r.None? ==> forall q :: p <= q <= |s| ==> at(s, q).None?)
    decreases |s| + 1 - p
  {
    if p <= |s| && at(s, p).None? {
      LeftmostFirst(s, at, p + 1);
    }
  }

  /** The text `re.search` captures, if it matches at all. */
  function Search<T>(s: string, at: (string, nat) -> Option<T>): Option<T> {
    match Leftmost(s, at, 0)
    case Some((_, v)) => Some(v)
    case None => None
  }

  /** A search succeeds once its matcher succeeds at some position. */
  lemma {:induction false} SearchFrom<T>(s: string, at: (string, nat) -> Option<T>, p: nat)
    requires p <= |s| && at(s, p).Some?
    ensures Search(s, at).Some?
  {
    LeftmostFirst(s, at, 0);
  }

  /** A search that succeeds returns what its matcher captures at some position. */
  lemma {:induction false} SearchWitness<T>(s: string, at: (string, nat) -> Option<T>) returns (p: nat)
    requires Search(s, at).Some?
    ensures p <= |s| && at(s, p) == Search(s, at)
  {
    LeftmostFirst(s, at, 0);
    p := Leftmost(s, at, 0).value.0;
  }

  /** The first position at which the matcher succeeds decides the search. */
  lemma {:induction false} SearchFirst<T>(s: string, at: (string, nat) -> Option<T>, p: nat)
    requires p <= |s| && at(s, p).Some?
    requires forall q :: 0 <= q < p ==> at(s, q).None?
    ensures Search(s, at) == at(s, p)
  {
    LeftmostFirst(s, at, 0);
  }

  /** `(.+)w` anchored at `q`: a greedy capture from `q` followed by the
      keyword `w`.  The capture is non-empty, stays on its line, and ends at
      the last occurrence of `w` on that line. */
  function GreedyBefore(s: string, q: nat, w: string): (r: Option<string>)
    ensures r.Some? ==> r.value != [] && q + |r.value| <= |s| && s[q..q + |r.value|] == r.value
    ensures r.Some? ==> LitAt(s, q + |r.value|, w) && '\n' !in r.value
    ensures r.Some? ==> forall j :: q + |r.value| < j && j + |w| <= LineEnd(s, q) ==> !LitAt(s, j, w)
    ensures r.None? ==> q > |s| || forall j :: q < j && j + |w| <= LineEnd(s, q) ==> !LitAt(s, j, w)
  {
    if q > |s| then None
    else
      var hi := LineEnd(s, q);
      LastLitMeaning(s, q, hi, w);
      match LastLit(s, q, hi, w)
      case None => None
      case Some(j) =>
        assert forall k :: 0 <= k < j - q ==> s[q..j][k] == s[q + k];
        Some(s[q..j])
  }

  /** `(?:on the )?(.+) link` anchored at `p`: the optional prefix is tried
      first, and dropped when the rest cannot match after it. */
  function LinkAt(s: string, p: nat): Option<string> {
    if LitAt(s, p, OnThe) && GreedyBefore(s, p + |OnThe|, LinkWord).Some? then
      GreedyBefore(s, p + |OnThe|, LinkWord)
    else
      GreedyBefore(s, p, LinkWord)
  }

  /** `the (.+) button` anchored at `p`. */
  function ButtonAt(s: string, p: nat): Option<string> {
    if LitAt(s, p, The) then GreedyBefore(s, p + |The|, ButtonWord) else None
  }

  /** `the (.+)<kw>(.+)` anchored at `p`, with `kw` one of ` field with ` and
      ` textarea with `: the name is greedy, so it ends at the last keyword
      on the line that still has a character after it, and the value runs
      to the end of the line. */
  function FieldAt(s: string, p: nat, kw: string): Option<(string, string)> {
    if !LitAt(s, p, The) then None
    else
      var q := p + |The|;
      var hi := LineEnd(s, q);
      match LastLit(s, q, hi - 1, kw)
      case None => None
      case Some(j) => Some((s[q..j], s[j + |kw|..hi]))
  }

  /** A match of `FieldAt` is `the `, a non-empty name, the keyword and a
      non-empty value that runs to the end of the line, with no later keyword
      on the line that would leave a value after it. */
  lemma {:induction false} FieldAtFound(s: string, p: nat, kw: string)
    requires FieldAt(s, p, kw).Some?
    ensures LitAt(s, p, The)
    ensures var q := p + |The|; var name := FieldAt(s, p, kw).value.0; var value := FieldAt(s, p, kw).value.1;
      name != [] && value != [] && q + |name| + |kw| + |value| <= |s|
      && s[q..q + |name|] == name && LitAt(s, q + |name|, kw)
      && s[q + |name| + |kw|..q + |name| + |kw| + |value|] == value
      && q + |name| + |kw| + |value| == LineEnd(s, q)
      && forall j :: q + |name| < j && j + |kw| < LineEnd(s, q) ==> !LitAt(s, j, kw)
  {
    var q := p + |The|;
    var hi := LineEnd(s, q);
    LastLitMeaning(s, q, hi - 1, kw);
    var j := LastLit(s, q, hi - 1, kw).value;
    assert FieldAt(s, p, kw).value == (s[q..j], s[j + |kw|..hi]);
    assert |s[q..j]| == j - q && |s[j + |kw|..hi]| == hi - j - |kw|;
  }

  /** `FieldAt` fails only where `the ` is missing or no keyword on its line
      leaves room for a name and a value. */
  lemma {:induction false} FieldAtAbsent(s: string, p: nat, kw: string)
    requires FieldAt(s, p, kw).None?
    ensures !LitAt(s, p, The) || forall j :: p + |The| < j && j + |kw| < LineEnd(s, p + |The|) ==> !LitAt(s, j, kw)
  {
    if LitAt(s, p, The) {
      var q := p + |The|;
      LastLitMeaning(s, q, LineEnd(s, q) - 1, kw);
    }
  }

  /** `(.+) from the (.+) dropdown` anchored at `p`: both captures are
      greedy, so the name ends at the last ` dropdown` on the line and the
      value at the last ` from the ` that leaves room for a name before it. */
  function SelectAt(s: string, p: nat): Option<(string, string)> {
    if p > |s| then None
    else
      var hi := LineEnd(s, p);
      match LastLit(s, p, hi, DropdownWord)
      case None => None
      case Some(k) =>
        match LastLit(s, p, k - 1, FromThe)
        case None => None
        case Some(j) => Some((s[p..j], s[j + |FromThe|..k]))
  }

  /** A match of `SelectAt` is a non-empty value, ` from the `, a non-empty
      name and ` dropdown`, on one line, with no later ` dropdown` on the line
      and no later ` from the ` before the name. */
  lemma {:induction false} SelectAtFound(s: string, p: nat)
    requires SelectAt(s, p).Some?
    ensures var r := SelectAt(s, p).value; var value := r.0; var name := r.1; var k := p + |value| + |FromThe| + |name|;
      p <= |s| && value != [] && name != [] && k + |DropdownWord| <= LineEnd(s, p)
      && s[p..p + |value|] == value && LitAt(s, p + |value|, FromThe)
      && s[p + |value| + |FromThe|..k] == name
      && LitAt(s, k, DropdownWord)
      && (forall k' :: k < k' && k' + |DropdownWord| <= LineEnd(s, p) ==> !LitAt(s, k', DropdownWord))
      && (forall j :: p + |value| < j && j + |FromThe| < k ==> !LitAt(s, j, FromThe))
  {
    var hi := LineEnd(s, p);
    var k := LastLit(s, p, hi, DropdownWord).value;
    LastLitMeaning(s, p, hi, DropdownWord);
    var j := LastLit(s, p, k - 1, FromThe).value;
    LastLitMeaning(s, p, k - 1, FromThe);
    assert SelectAt(s, p).value == (s[p..j], s[j + |FromThe|..k]);
    assert |s[p..j]| == j - p && |s[j + |FromThe|..k]| == k - j - |FromThe|;
  }

  /** `SelectAt` fails only where the line holds no ` from the ` followed by
      ` dropdown`. */
  lemma {:induction false} SelectAtAbsent(s: string, p: nat)
    requires p <= |s| && SelectAt(s, p).None?
    ensures forall j, k :: p < j && j + |FromThe| < k && k + |DropdownWord| <= LineEnd(s, p) ==> !(LitAt(s, j, FromThe) && LitAt(s, k, DropdownWord))
  {
    var hi := LineEnd(s, p);
    LastLitMeaning(s, p, hi, DropdownWord);
    match LastLit(s, p, hi, DropdownWord)
    case None =>
    case Some(k) =>
      LastLitMeaning(s, p, k - 1, FromThe);
  }

  /** Where the quote keyword does not occur, there is no quote. */
  lemma {:induction false} QuoteFree(s: string, lo: nat, hi: nat)
    requires hi <= |s|
    requires forall j :: lo < j && j + |Quote| <= hi ==> !LitAt(s, j, Quote)
    ensures forall k :: lo < k < hi ==> s[k] != '\''
  {
    forall k | lo < k < hi ensures s[k] != '\'' {
      LitAtChar(s, k, '\'');
    }
  }

  /** `(.+?) contains '(.+)'` anchored at `q`: the target is lazy, so it ends
      at the first ` contains '` on the line that still has a quote after
      it, and the quoted value is greedy, ending at the last quote on the
      line. */
  function ContainsAt(s: string, q: nat): Option<(string, string)> {
    if q > |s| then None
    else
      var hi := LineEnd(s, q);
      match LastLit(s, q, hi, Quote)
      case None => None
      case Some(k) =>
        match FirstLit(s, q, k - 1, ContainsQuote)
        case None => None
        case Some(j) => Some((s[q..j], s[j + |ContainsQuote|..k]))
  }

  /** A match of `ContainsAt` is a non-empty target, ` contains '`, a
      non-empty value and a quote, on one line, with no earlier ` contains '`
      inside the target and no later quote on the line. */
  lemma {:induction false} ContainsAtFound(s: string, q: nat)
    requires ContainsAt(s, q).Some?
    ensures var r := ContainsAt(s, q).value; var target := r.0; var value := r.1; var k := q + |target| + |ContainsQuote| + |value|;
      q <= |s| && target != [] && value != [] && k + 1 <= LineEnd(s, q)
      && s[q..q + |target|] == target && LitAt(s, q + |target|, ContainsQuote)
      && s[q + |target| + |ContainsQuote|..k] == value
      && s[k] == '\''
      && (forall j :: q < j < q + |target| ==> !LitAt(s, j, ContainsQuote))
      && (forall k' :: k < k' < LineEnd(s, q) ==> s[k'] != '\'')
  {
    var hi := LineEnd(s, q);
    var k := LastLit(s, q, hi, Quote).value;
    LastLitMeaning(s, q, hi, Quote);
    QuoteFree(s, k, hi);
    LitAtChar(s, k, '\'');
    var j := FirstLit(s, q, k - 1, ContainsQuote).value;
    FirstLitMeaning(s, q, k - 1, ContainsQuote);
    assert ContainsAt(s, q).value == (s[q..j], s[j + |ContainsQuote|..k]);
    assert |s[q..j]| == j - q && |s[j + |ContainsQuote|..k]| == k - j - |ContainsQuote|;
  }

  /** `ContainsAt` fails only where the line holds no ` contains '` followed
      by a quote. */
  lemma {:induction false} ContainsAtAbsent(s: string, q: nat)
    requires q <= |s| && ContainsAt(s, q).None?
    ensures forall j, k :: q < j && j + |ContainsQuote| < k < LineEnd(s, q) ==> !(LitAt(s, j, ContainsQuote) && s[k] == '\'')
  {
    var hi := LineEnd(s, q);
    LastLitMeaning(s, q, hi, Quote);
    match LastLit(s, q, hi, Quote)
    case None =>
      QuoteFree(s, q, hi);
    case Some(k) =>
      QuoteFree(s, k, hi);
      FirstLitMeaning(s, q, k - 1, ContainsQuote);
  }

  /** `(?:that )?(.+?) contains '(.+)'` anchored at `p`. */
  function ExpectAt(s: string, p: nat): Option<(string, string)> {
    if LitAt(s, p, That) && ContainsAt(s, p + |That|).Some? then ContainsAt(s, p + |That|)
    else ContainsAt(s, p)
  }

  /** `(.+)` anchored at `q`: the rest of the line, if it is not empty. */
  function RestOfLine(s: string, q: nat): (r: Option<string>)
    ensures r.Some? ==> q <= |s| && r.value != [] && q + |r.value| == LineEnd(s, q) && s[q..q + |r.value|] == r.value
    ensures r.None? <==> q > |s| || LineEnd(s, q) == q
  {
    if q > |s| then None
    else
      var hi := LineEnd(s, q);
      if q < hi then Some(s[q..hi]) else None
  }

  /** `(?:to )?(.+)` anchored at `p`. */
  function GotoAt(s: string, p: nat): Option<string> {
    if LitAt(s, p, To) && RestOfLine(s, p + |To|).Some? then RestOfLine(s, p + |To|)
    else RestOfLine(s, p)
  }

  /** `(\d+)` anchored at `p`: the maximal run of digits starting there. */
  function DigitsAt(s: string, p: nat): (r: Option<string>)
    ensures r.Some? <==> p < |s| && IsDigit(s[p])
    ensures r.Some? ==> r.value != [] && p + |r.value| <= |s| && s[p..p + |r.value|] == r.value
    ensures r.Some? ==> (forall k :: 0 <= k < |r.value| ==> IsDigit(r.value[k]))
                        && (p + |r.value| == |s| || !IsDigit(s[p + |r.value|]))
  {
    if p < |s| && IsDigit(s[p]) then
      var e := RunEnd(s, p, Digit);
      assert forall k :: 0 <= k < e - p ==> s[p..e][k] == s[p + k] && InClass(s[p + k], Digit);
      Some(s[p..e])
    else None
  }

  function DigitValue(c: char): nat
    requires IsDigit(c)
  {
    c as int - '0' as int
  }

  /** `int()` of a string of decimal digits, leading zeros allowed. */
  function DecimalValue(ds: string): nat
    requires forall k :: 0 <= k < |ds| ==> IsDigit(ds[k])
  {
    if ds == [] then 0
    else 10 * DecimalValue(ds[..|ds| - 1]) + DigitValue(ds[|ds| - 1])
  }

  /** The decimal numeral of `n`, without leading zeros. */
  function Numeral(n: nat): (r: string)
    ensures r != [] && forall k :: 0 <= k < |r| ==> IsDigit(r[k])
    ensures n > 0 ==> r[0] != '0'
  {
    var d := ('0' as int + n % 10) as char;
    if n < 10 then [d] else Numeral(n / 10) + [d]
  }

  /** Reading back a numeral gives the number. */
  lemma {:induction false} DecimalValueOfNumeral(n: nat)
    ensures DecimalValue(Numeral(n)) == n
    decreases n
  {
    var r := Numeral(n);
    if n >= 10 {
      DecimalValueOfNumeral(n / 10);
      assert r[..|r| - 1] == Numeral(n / 10);
    }
  }

  /** Leading zeros do not change the value. */
  lemma {:induction false} LeadingZeros(ds: string)
    requires forall k :: 0 <= k < |ds| ==> IsDigit(ds[k])
    ensures DecimalValue("0" + ds) == DecimalValue(ds)
    decreases |ds|
  {
    if ds != [] {
      var s := "0" + ds;
      assert s[..|s| - 1] == "0" + ds[..|ds| - 1];
      LeadingZeros(ds[..|ds| - 1]);
    } else {
      assert "0" + ds == "0";
    }
  }

  // ---------------------------------------------------------------------
  // When does each search succeed?  Each pattern is characterised by the
  // keywords it needs and the line they must share.

  /** No line feed in `s[i..j]`. */
  predicate OnOneLine(s: string, i: nat, j: nat) {
    i <= j <= |s| && forall k :: i <= k < j ==> s[k] != '\n'
  }

  /** A keyword without a line feed has no line feed where it occurs. */
  lemma {:induction false} LitAtOnOneLine(s: string, j: nat, w: string)
    requires LitAt(s, j, w) && '\n' !in w
    ensures OnOneLine(s, j, j + |w|)
  {
    forall k | j <= k < j + |w| ensures s[k] != '\n' {
      assert Folds(s, j, w, k - j) && w[k - j] in w;
    }
  }

  /** A stretch without a line feed lies before the end of its line. */
  lemma {:induction false} LineEndBeyond(s: string, q: nat, e: nat)
    requires q <= e && OnOneLine(s, q, e)
    ensures e <= LineEnd(s, q)
  {
  }

  lemma {:induction false} JoinLines(s: string, i: nat, j: nat, k: nat)
    requires OnOneLine(s, i, j) && OnOneLine(s, j, k)
    ensures OnOneLine(s, i, k)
  {
  }

  /** What a greedy capture before `w` that succeeds tells about `s`. */
  lemma {:induction false} GreedyWitness(s: string, q: nat, w: string)
    requires GreedyBefore(s, q, w).Some?
    ensures var j := q + |GreedyBefore(s, q, w).value|;
      q < j && LitAt(s, j, w) && OnOneLine(s, q, j)
  {
    var v := GreedyBefore(s, q, w).value;
    forall k | q <= k < q + |v| ensures s[k] != '\n' {
      assert s[k] == v[k - q];
    }
  }

  /** A greedy capture before `w` succeeds wherever `w` follows at least one
      character on the same line. */
  lemma {:induction false} GreedyFromWitness(s: string, q: nat, j: nat, w: string)
    requires q < j && LitAt(s, j, w) && '\n' !in w && OnOneLine(s, q, j)
    ensures GreedyBefore(s, q, w).Some?
  {
    LitAtOnOneLine(s, j, w);
    JoinLines(s, q, j, j + |w|);
    LineEndBeyond(s, q, j + |w|);
  }

  /** A greedy capture before a keyword that ends the line takes everything
      up to that keyword. */
  lemma {:induction false} GreedyToEnd(s: string, q: nat, j: nat, w: string)
    requires q < j && j + |w| == |s| && s[j..] == w
    requires forall k :: 0 <= k < |w| ==> !('A' <= w[k] <= 'Z')
    requires OnOneLine(s, q, |s|)
    ensures GreedyBefore(s, q, w) == Some(s[q..j])
  {
    LitAtIs(s, j, w);
    LineEndBeyond(s, q, |s|);
    LastLitIs(s, q, |s|, w, j);
  }

  /** Some ` link` follows, on its line, at least one character. */
  ghost predicate LinkOccurs(s: string) {
    exists j: nat :: 0 < j && LitAt(s, j, LinkWord) && s[j - 1] != '\n'
  }

  lemma {:induction false} LinkAtWitness(s: string, p: nat)
    requires LinkAt(s, p).Some?
    ensures LinkOccurs(s)
  {
    var q := if LitAt(s, p, OnThe) && GreedyBefore(s, p + |OnThe|, LinkWord).Some? then p + |OnThe| else p;
    assert GreedyBefore(s, q, LinkWord).Some?;
    GreedyWitness(s, q, LinkWord);
    var j := q + |GreedyBefore(s, q, LinkWord).value|;
    assert s[j - 1] != '\n';
  }

  lemma {:induction false} LinkSearch(s: string)
    ensures Search(s, LinkAt).Some? <==> LinkOccurs(s)
  {
    if LinkOccurs(s) {
      var j: nat :| 0 < j && LitAt(s, j, LinkWord) && s[j - 1] != '\n';
      GreedyFromWitness(s, j - 1, j, LinkWord);
      assert LinkAt(s, j - 1).Some?;
      SearchFrom(s, LinkAt, j - 1);
    }
    if Search(s, LinkAt).Some? {
      var p := SearchWitness(s, LinkAt);
      LinkAtWitness(s, p);
    }
  }

  /** A line `on the <name> link` names the link `name`. */
  lemma {:induction false} LinkLine(s: string, j: nat)
    requires |OnThe| < j && j + |LinkWord| == |s| && s[..|OnThe|] == OnThe && s[j..] == LinkWord
    requires OnOneLine(s, |OnThe|, |s|)
    ensures LinkAt(s, 0) == Some(s[|OnThe|..j])
  {
    LitAtIs(s, 0, OnThe);
    GreedyToEnd(s, |OnThe|, j, LinkWord);
  }

  lemma {:induction false} LinkParts(name: string)
    requires name != [] && forall k :: 0 <= k < |name| ==> name[k] != '\n'
    ensures Search(OnThe + name + LinkWord, LinkAt) == Some(name)
  {
    var s := OnThe + name + LinkWord;
    var j := |OnThe| + |name|;
    assert s[..|OnThe|] == OnThe && s[|OnThe|..j] == name && s[j..] == LinkWord;
    forall k | |OnThe| <= k < |s| ensures s[k] != '\n' {
      if k < j { assert s[k] == name[k - |OnThe|]; } else { assert s[k] == s[j..][k - j]; }
    }
    LinkLine(s, j);
    SearchFirst(s, LinkAt, 0);
  }

  /** Without `on the `, a line `<name> link` names the link `name`, article
      and all. */
  lemma {:induction false} LinkBareLine(s: string, j: nat)
    requires 0 < j && j + |LinkWord| == |s| && s[j..] == LinkWord && Lower(s[0]) != 'o'
    requires OnOneLine(s, 0, |s|)
    ensures LinkAt(s, 0) == Some(s[..j])
  {
    NotLitAt(s, 0, OnThe, 0);
    GreedyToEnd(s, 0, j, LinkWord);
    assert s[0..j] == s[..j];
  }

  lemma {:induction false} LinkBare(name: string)
    requires name != [] && Lower(name[0]) != 'o' && forall k :: 0 <= k < |name| ==> name[k] != '\n'
    ensures Search(name + LinkWord, LinkAt) == Some(name)
  {
    var s := name + LinkWord;
    var j := |name|;
    assert s[..j] == name && s[j..] == LinkWord && s[0] == name[0];
    forall k | 0 <= k < |s| ensures s[k] != '\n' {
      if k < j { assert s[k] == name[k]; } else { assert s[k] == s[j..][k - j]; }
    }
    LinkBareLine(s, j);
    SearchFirst(s, LinkAt, 0);
  }

  /** Some `the ` is followed, on the same line, by at least one character
      and then ` button`. */
  ghost predicate ButtonOccurs(s: string) {
    exists p: nat, j: nat :: p + |The| < j && LitAt(s, p, The) && LitAt(s, j, ButtonWord)
                             && OnOneLine(s, p + |The|, j)
  }

  lemma {:induction false} ButtonAtWitness(s: string, p: nat)
    requires ButtonAt(s, p).Some?
    ensures ButtonOccurs(s)
  {
    GreedyWitness(s, p + |The|, ButtonWord);
    var j := p + |The| + |GreedyBefore(s, p + |The|, ButtonWord).value|;
    assert p + |The| < j && LitAt(s, p, The) && LitAt(s, j, ButtonWord) && OnOneLine(s, p + |The|, j);
  }

  lemma {:induction false} ButtonSearch(s: string)
    ensures Search(s, ButtonAt).Some? <==> ButtonOccurs(s)
  {
    if ButtonOccurs(s) {
      var p: nat, j: nat :| p + |The| < j && LitAt(s, p, The) && LitAt(s, j, ButtonWord)
                            && OnOneLine(s, p + |The|, j);
      GreedyFromWitness(s, p + |The|, j, ButtonWord);
      SearchFrom(s, ButtonAt, p);
    }
    if Search(s, ButtonAt).Some? {
      var p := SearchWitness(s, ButtonAt);
      ButtonAtWitness(s, p);
    }
  }

  /** A line `the <name> button` names the button `name`. */
  lemma {:induction false} ButtonLine(s: string, j: nat)
    requires |The| < j && j + |ButtonWord| == |s| && s[..|The|] == The && s[j..] == ButtonWord
    requires OnOneLine(s, |The|, |s|)
    ensures ButtonAt(s, 0) == Some(s[|The|..j])
  {
    LitAtIs(s, 0, The);
    GreedyToEnd(s, |The|, j, ButtonWord);
  }

  lemma {:induction false} ButtonParts(name: string)
    requires name != [] && forall k :: 0 <= k < |name| ==> name[k] != '\n'
    ensures Search(The + name + ButtonWord, ButtonAt) == Some(name)
  {
    var s := The + name + ButtonWord;
    var j := |The| + |name|;
    assert s[..|The|] == The && s[|The|..j] == name && s[j..] == ButtonWord;
    forall k | |The| <= k < |s| ensures s[k] != '\n' {
      if k < j { assert s[k] == name[k - |The|]; } else { assert s[k] == s[j..][k - j]; }
    }
    ButtonLine(s, j);
    SearchFirst(s, ButtonAt, 0);
  }

  /** Some `the ` is followed, on the same line, by at least one character,
      the keyword `kw` and at least one more character. */
  ghost predicate FieldOccurs(s: string, kw: string) {
    exists p: nat, j: nat :: p + |The| < j && LitAt(s, p, The) && LitAt(s, j, kw)
                             && OnOneLine(s, p + |The|, j + |kw| + 1)
  }

  lemma {:induction false} FieldSomewhere(s: string, kw: string)
    requires '\n' !in kw
    ensures (exists p: nat :: p <= |s| && FieldAt(s, p, kw).Some?) <==> FieldOccurs(s, kw)
  {
    if FieldOccurs(s, kw) {
      var p: nat, j: nat :| p + |The| < j && LitAt(s, p, The) && LitAt(s, j, kw)
                            && OnOneLine(s, p + |The|, j + |kw| + 1);
      LineEndBeyond(s, p + |The|, j + |kw| + 1);
      if FieldAt(s, p, kw).None? {
        FieldAtAbsent(s, p, kw);
      }
    }
    if p: nat :| p <= |s| && FieldAt(s, p, kw).Some? {
      FieldAtFound(s, p, kw);
      var r := FieldAt(s, p, kw).value;
      var q := p + |The|;
      var j := q + |r.0|;
      assert OnOneLine(s, q, LineEnd(s, q));
      assert OnOneLine(s, q, j + |kw| + 1);
    }
  }

  /** `the (.+) field with (.+)` anchored at `p`. */
  function FieldWithAt(s: string, p: nat): Option<(string, string)> {
    FieldAt(s, p, FieldWith)
  }

  /** `the (.+) textarea with (.+)` anchored at `p`. */
  function TextareaWithAt(s: string, p: nat): Option<(string, string)> {
    FieldAt(s, p, TextareaWith)
  }

  /** `the (.+) <kw> (.+)` at `p` captures up to the last `kw` of the line. */
  lemma {:induction false} FieldAtIs(s: string, p: nat, kw: string, j: nat)
    requires LitAt(s, p, The) && p + |The| < j && LitAt(s, j, kw)
    requires j + |kw| < LineEnd(s, p + |The|)
    requires forall j' :: j < j' && j' + |kw| < LineEnd(s, p + |The|) ==> !LitAt(s, j', kw)
    ensures FieldAt(s, p, kw) == Some((s[p + |The|..j], s[j + |kw|..LineEnd(s, p + |The|)]))
  {
    var q := p + |The|;
    var hi := LineEnd(s, q);
    LastLitIs(s, q, hi - 1, kw, j);
  }

  /** After a ` field with ` that only non-spaces follow, no other one ends
      before the end of `s`. */
  lemma {:induction false} FieldWithLast(s: string, j: nat)
    requires j + |FieldWith| <= |s| && s[j..j + |FieldWith|] == FieldWith
    requires forall k :: j + |FieldWith| <= k < |s| ==> s[k] != ' '
    ensures forall j' :: j < j' && j' + |FieldWith| < |s| ==> !LitAt(s, j', FieldWith)
  {
    var e := j + |FieldWith|;
    forall j' | j < j' && j' + |FieldWith| < |s| ensures !LitAt(s, j', FieldWith) {
      if j' >= e {
        NotLitAt(s, j', FieldWith, 0);
      } else if j' == j + 6 {
        assert s[j' + 1] == s[j..e][7];
        NotLitAt(s, j', FieldWith, 1);
      } else if j' == j + 11 {
        NotLitAt(s, j', FieldWith, 6);
      } else {
        assert s[j'] == s[j..e][j' - j];
        NotLitAt(s, j', FieldWith, 0);
      }
    }
  }

  /** A line that opens with `the `, has a ` field with ` at `j` and only
      non-spaces after it names the input before that keyword and the text
      after it. */
  lemma {:induction false} FieldWithLine(s: string, j: nat)
    requires |The| < j && j + |FieldWith| < |s|
    requires s[..|The|] == The && s[j..j + |FieldWith|] == FieldWith
    requires OnOneLine(s, |The|, |s|)
    requires forall k :: j + |FieldWith| <= k < |s| ==> s[k] != ' '
    ensures FieldWithAt(s, 0) == Some((s[|The|..j], s[j + |FieldWith|..]))
  {
    LitAtIs(s, 0, The);
    LitAtIs(s, j, FieldWith);
    LineEndBeyond(s, |The|, |s|);
    FieldWithLast(s, j);
    assert LineEnd(s, |The|) == |s|;
    assert s[j + |FieldWith|..LineEnd(s, |The|)] == s[j + |FieldWith|..];
    FieldAtIs(s, 0, FieldWith, j);
    assert FieldWithAt(s, 0) == FieldAt(s, 0, FieldWith);
  }

  /** A line `the <name> field with <value>` names the input `name` and the
      text `value`, whatever `name` holds, as long as `value` has no space. */
  lemma {:induction false} FieldWithParts(name: string, value: string)
    requires name != [] && value != []
    requires forall k :: 0 <= k < |name| ==> name[k] != '\n'
    requires forall k :: 0 <= k < |value| ==> value[k] != '\n' && value[k] != ' '
    ensures Search(The + name + FieldWith + value, FieldWithAt) == Some((name, value))
  {
    var s := The + name + FieldWith + value;
    var j := |The| + |name|;
    var e := j + |FieldWith|;
    assert s[..|The|] == The && s[|The|..j] == name && s[j..e] == FieldWith && s[e..] == value;
    forall k | |The| <= k < |s| ensures s[k] != '\n' {
      if k < j { assert s[k] == name[k - |The|]; }
      else if k < e { assert s[k] == s[j..e][k - j]; }
      else { assert s[k] == value[k - e]; }
    }
    forall k | e <= k < |s| ensures s[k] != ' ' { assert s[k] == value[k - e]; }
    FieldWithLine(s, j);
    SearchFirst(s, FieldWithAt, 0);
  }

  lemma {:induction false} FieldWithSearch(s: string)
    ensures Search(s, FieldWithAt).Some? <==> FieldOccurs(s, FieldWith)
  {
    FieldSomewhere(s, FieldWith);
    if FieldOccurs(s, FieldWith) {
      var p: nat :| p <= |s| && FieldAt(s, p, FieldWith).Some?;
      assert FieldWithAt(s, p).Some?;
      SearchFrom(s, FieldWithAt, p);
    }
    if Search(s, FieldWithAt).Some? {
      var p := SearchWitness(s, FieldWithAt);
      assert FieldAt(s, p, FieldWith).Some?;
    }
  }

  lemma {:induction false} TextareaWithSearch(s: string)
    ensures Search(s, TextareaWithAt).Some? <==> FieldOccurs(s, TextareaWith)
  {
    FieldSomewhere(s, TextareaWith);
    if FieldOccurs(s, TextareaWith) {
      var p: nat :| p <= |s| && FieldAt(s, p, TextareaWith).Some?;
      assert TextareaWithAt(s, p).Some?;
      SearchFrom(s, TextareaWithAt, p);
    }
    if Search(s, TextareaWithAt).Some? {
      var p := SearchWitness(s, TextareaWithAt);
      assert FieldAt(s, p, TextareaWith).Some?;
    }
  }

  /** Some ` from the ` follows at least one character and is followed by at
      least one character and then ` dropdown`, all on one line. */
  ghost predicate SelectOccurs(s: string) {
    exists j: nat, k: nat :: 0 < j && j + |FromThe| < k && LitAt(s, j, FromThe) && LitAt(s, k, DropdownWord)
                             && OnOneLine(s, j - 1, k)
  }

  lemma {:induction false} SelectAtFrom(s: string, j: nat, k: nat)
    requires 0 < j && j + |FromThe| < k && LitAt(s, j, FromThe) && LitAt(s, k, DropdownWord)
    requires OnOneLine(s, j - 1, k)
    ensures SelectAt(s, j - 1).Some?
  {
    LitAtOnOneLine(s, k, DropdownWord);
    JoinLines(s, j - 1, k, k + |DropdownWord|);
    LineEndBeyond(s, j - 1, k + |DropdownWord|);
    if SelectAt(s, j - 1).None? {
      SelectAtAbsent(s, j - 1);
    }
  }

  lemma {:induction false} SelectAtWitness(s: string, p: nat)
    requires SelectAt(s, p).Some?
    ensures SelectOccurs(s)
  {
    SelectAtFound(s, p);
    var r := SelectAt(s, p).value;
    var j := p + |r.0|;
    var k := j + |FromThe| + |r.1|;
    assert OnOneLine(s, j - 1, k);
  }

  lemma {:induction false} SelectSearch(s: string)
    ensures Search(s, SelectAt).Some? <==> SelectOccurs(s)
  {
    if SelectOccurs(s) {
      var j: nat, k: nat :| 0 < j && j + |FromThe| < k && LitAt(s, j, FromThe) && LitAt(s, k, DropdownWord)
                            && OnOneLine(s, j - 1, k);
      SelectAtFrom(s, j, k);
      SearchFrom(s, SelectAt, j - 1);
    }
    if Search(s, SelectAt).Some? {
      var p := SearchWitness(s, SelectAt);
      SelectAtWitness(s, p);
    }
  }

  /** After a ` from the ` that only non-spaces follow up to `k`, no other
      one ends before `k - 1`. */
  lemma {:induction false} FromTheLast(s: string, j: nat, k: nat)
    requires j + |FromThe| <= k <= |s| && s[j..j + |FromThe|] == FromThe
    requires forall i :: j + |FromThe| <= i < k ==> s[i] != ' '
    ensures forall j' :: j < j' && j' + |FromThe| <= k - 1 ==> !LitAt(s, j', FromThe)
  {
    var e := j + |FromThe|;
    forall j' | j < j' && j' + |FromThe| <= k - 1 ensures !LitAt(s, j', FromThe) {
      if j' >= e {
        NotLitAt(s, j', FromThe, 0);
      } else if j' == j + 5 {
        assert s[j' + 1] == s[j..e][6];
        NotLitAt(s, j', FromThe, 1);
      } else if j' == j + 9 {
        NotLitAt(s, j', FromThe, 5);
      } else {
        assert s[j'] == s[j..e][j' - j];
        NotLitAt(s, j', FromThe, 0);
      }
    }
  }

  /** Where the last ` dropdown` of the line and the last ` from the ` before
      it are, `SelectAt` captures what lies around them. */
  lemma {:induction false} SelectAtIs(s: string, p: nat, j: nat, k: nat)
    requires p <= |s|
    requires LastLit(s, p, LineEnd(s, p), DropdownWord) == Some(k)
    requires LastLit(s, p, k - 1, FromThe) == Some(j)
    ensures SelectAt(s, p) == Some((s[p..j], s[j + |FromThe|..k]))
  {
    var hi := LineEnd(s, p);
    assert LastLit(s, p, hi, DropdownWord) == Some(k);
  }

  /** A line `<value> from the <name> dropdown` whose name has no space
      picks the option `value` of the dropdown `name`. */
  lemma {:induction false} SelectLine(s: string, j: nat, k: nat)
    requires 0 < j && j + |FromThe| < k && k + |DropdownWord| == |s|
    requires s[j..j + |FromThe|] == FromThe && s[k..] == DropdownWord
    requires OnOneLine(s, 0, |s|)
    requires forall i :: j + |FromThe| <= i < k ==> s[i] != ' '
    ensures SelectAt(s, 0) == Some((s[..j], s[j + |FromThe|..k]))
  {
    LitAtIs(s, j, FromThe);
    LitAtIs(s, k, DropdownWord);
    LineEndBeyond(s, 0, |s|);
    LastLitIs(s, 0, |s|, DropdownWord, k);
    FromTheLast(s, j, k);
    LastLitIs(s, 0, k - 1, FromThe, j);
    SelectAtIs(s, 0, j, k);
    assert s[0..j] == s[..j];
  }

  lemma {:induction false} SelectParts(value: string, name: string)
    requires value != [] && forall k :: 0 <= k < |value| ==> value[k] != '\n'
    requires name != [] && forall k :: 0 <= k < |name| ==> name[k] != '\n' && name[k] != ' '
    ensures Search(value + FromThe + name + DropdownWord, SelectAt) == Some((value, name))
  {
    var s := value + FromThe + name + DropdownWord;
    var j := |value|;
    var e := j + |FromThe|;
    var k := e + |name|;
    assert s[..j] == value && s[j..e] == FromThe && s[e..k] == name && s[k..] == DropdownWord;
    forall i | 0 <= i < |s| ensures s[i] != '\n' {
      if i < j { assert s[i] == value[i]; }
      else if i < e { assert s[i] == s[j..e][i - j]; }
      else if i < k { assert s[i] == name[i - e]; }
      else { assert s[i] == s[k..][i - k]; }
    }
    forall i | e <= i < k ensures s[i] != ' ' { assert s[i] == name[i - e]; }
    SelectLine(s, j, k);
    SearchFirst(s, SelectAt, 0);
  }

  /** Where the last quote of the line and the first ` contains '` before it
      are, `ContainsAt` captures what lies around them. */
  lemma {:induction false} ContainsAtIs(s: string, q: nat, j: nat, k: nat)
    requires q <= |s|
    requires LastLit(s, q, LineEnd(s, q), Quote) == Some(k)
    requires FirstLit(s, q, k - 1, ContainsQuote) == Some(j)
    ensures ContainsAt(s, q) == Some((s[q..j], s[j + |ContainsQuote|..k]))
  {
  }

  /** A line `<target> contains '<value>'` ending at the quote, whose target
      holds no quote, expects `value` in `target`. */
  lemma {:induction false} ContainsLine(s: string, q: nat, j: nat, k: nat)
    requires q < j && j + |ContainsQuote| < k && k + 1 == |s|
    requires s[j..j + |ContainsQuote|] == ContainsQuote && s[k] == '\''
    requires OnOneLine(s, q, |s|)
    requires forall i :: q < i < j ==> s[i] != '\''
    ensures ContainsAt(s, q) == Some((s[q..j], s[j + |ContainsQuote|..k]))
  {
    LitAtIs(s, j, ContainsQuote);
    LitAtChar(s, k, '\'');
    LineEndBeyond(s, q, |s|);
    LastLitIs(s, q, |s|, Quote, k);
    forall j' | q < j' < j ensures !LitAt(s, j', ContainsQuote) {
      if j' + 10 >= j {
        assert s[j' + 10] == s[j..j + |ContainsQuote|][j' + 10 - j];
      }
      NotLitAt(s, j', ContainsQuote, 10);
    }
    FirstLitIs(s, q, k - 1, ContainsQuote, j);
    ContainsAtIs(s, q, j, k);
  }

  /** `that <target> contains '<value>'`: the optional `that ` is not part of
      the target. */
  lemma {:induction false} ExpectLine(s: string, j: nat, k: nat)
    requires |That| < j && j + |ContainsQuote| < k && k + 1 == |s| && s[..|That|] == That
    requires s[j..j + |ContainsQuote|] == ContainsQuote && s[k] == '\''
    requires OnOneLine(s, |That|, |s|)
    requires forall i :: |That| < i < j ==> s[i] != '\''
    ensures ExpectAt(s, 0) == Some((s[|That|..j], s[j + |ContainsQuote|..k]))
  {
    LitAtIs(s, 0, That);
    ContainsLine(s, |That|, j, k);
  }

  lemma {:induction false} ExpectParts(target: string, value: string)
    requires target != [] && forall k :: 0 <= k < |target| ==> target[k] != '\n' && target[k] != '\''
    requires value != [] && forall k :: 0 <= k < |value| ==> value[k] != '\n'
    ensures Search(That + target + ContainsQuote + value + Quote, ExpectAt) == Some((target, value))
  {
    var s := That + target + ContainsQuote + value + Quote;
    var j := |That| + |target|;
    var e := j + |ContainsQuote|;
    var k := e + |value|;
    assert s[..|That|] == That && s[|That|..j] == target && s[j..e] == ContainsQuote && s[e..k] == value && s[k] == '\'';
    forall i | |That| <= i < |s| ensures s[i] != '\n' {
      if i < j { assert s[i] == target[i - |That|]; }
      else if i < e { assert s[i] == s[j..e][i - j]; }
      else if i < k { assert s[i] == value[i - e]; }
    }
    forall i | |That| < i < j ensures s[i] != '\'' { assert s[i] == target[i - |That|]; }
    ExpectLine(s, j, k);
    SearchFirst(s, ExpectAt, 0);
  }

  /** Some ` contains '` follows at least one character and is followed by at
      least one character and then a quote, all on one line. */
  ghost predicate ExpectOccurs(s: string) {
    exists j: nat, k: nat :: 0 < j && j + |ContainsQuote| < k < |s| && LitAt(s, j, ContainsQuote)
                             && s[k] == '\'' && OnOneLine(s, j - 1, k + 1)
  }

  lemma {:induction false} ExpectAtWitness(s: string, p: nat)
    requires ExpectAt(s, p).Some?
    ensures ExpectOccurs(s)
  {
    var q := if LitAt(s, p, That) && ContainsAt(s, p + |That|).Some? then p + |That| else p;
    assert ContainsAt(s, q).Some?;
    ContainsAtFound(s, q);
    var r := ContainsAt(s, q).value;
    var j := q + |r.0|;
    var k := j + |ContainsQuote| + |r.1|;
    assert OnOneLine(s, j - 1, k + 1);
  }

  lemma {:induction false} ExpectAtFrom(s: string, j: nat, k: nat)
    requires 0 < j && j + |ContainsQuote| < k < |s| && LitAt(s, j, ContainsQuote)
    requires s[k] == '\'' && OnOneLine(s, j - 1, k + 1)
    ensures ExpectAt(s, j - 1).Some?
  {
    LineEndBeyond(s, j - 1, k + 1);
    if ContainsAt(s, j - 1).None? {
      ContainsAtAbsent(s, j - 1);
    }
  }

  lemma {:induction false} ExpectSearch(s: string)
    ensures Search(s, ExpectAt).Some? <==> ExpectOccurs(s)
  {
    if ExpectOccurs(s) {
      ExpectFound(s);
    }
    if Search(s, ExpectAt).Some? {
      var p := SearchWitness(s, ExpectAt);
      ExpectAtWitness(s, p);
    }
  }

  lemma {:induction false} ExpectFound(s: string)
    requires ExpectOccurs(s)
    ensures Search(s, ExpectAt).Some?
  {
    var j: nat, k: nat :| 0 < j && j + |ContainsQuote| < k < |s| && LitAt(s, j, ContainsQuote)
                          && s[k] == '\'' && OnOneLine(s, j - 1, k + 1);
    ExpectAtFrom(s, j, k);
    SearchFrom(s, ExpectAt, j - 1);
  }

  /** `(?:to )?(.+)` matches wherever some character is not a line feed. */
  lemma {:induction false} GotoSearch(s: string)
    ensures Search(s, GotoAt).Some? <==> exists k :: 0 <= k < |s| && s[k] != '\n'
  {
    if k :| 0 <= k < |s| && s[k] != '\n' {
      LineEndBeyond(s, k, k + 1);
      assert GotoAt(s, k).Some?;
      SearchFrom(s, GotoAt, k);
    }
    if Search(s, GotoAt).Some? {
      var p := SearchWitness(s, GotoAt);
      var q := if LitAt(s, p, To) && RestOfLine(s, p + |To|).Some? then p + |To| else p;
      assert RestOfLine(s, q).Some?;
      assert s[q] != '\n';
    }
  }

  /** On a single line that does not begin with a line feed the match is at
      the start: everything after a leading `to ` when something follows it,
      else the whole line. */
  lemma {:induction false} GotoWholeLine(s: string)
    requires s != [] && '\n' !in s
    ensures Search(s, GotoAt) == Some(if LitAt(s, 0, To) && |s| > |To| then s[|To|..] else s)
  {
    assert s[0] in s;
    LineEndBeyond(s, 0, |s|);
    assert LineEnd(s, 0) == |s|;
    assert RestOfLine(s, 0) == Some(s) by { assert s[0..|s|] == s; }
    if LitAt(s, 0, To) {
      LineEndBeyond(s, |To|, |s|);
      assert LineEnd(s, |To|) == |s|;
      assert |s| > |To| ==> RestOfLine(s, |To|) == Some(s[|To|..]);
    }
    var d := if LitAt(s, 0, To) && |s| > |To| then s[|To|..] else s;
    assert GotoAt(s, 0) == Some(d);
    SearchFirst(s, GotoAt, 0);
  }

  /** `(\d+)` matches exactly when there is a digit. */
  lemma {:induction false} DigitSearch(s: string)
    ensures Search(s, DigitsAt).Some? <==> exists k :: 0 <= k < |s| && IsDigit(s[k])
  {
    if k :| 0 <= k < |s| && IsDigit(s[k]) {
      assert DigitsAt(s, k).Some?;
      SearchFrom(s, DigitsAt, k);
    }
    if Search(s, DigitsAt).Some? {
      var p := SearchWitness(s, DigitsAt);
      assert IsDigit(s[p]);
    }
  }

  /** What `(\d+)` captures is a run of digits. */
  lemma {:induction false} DigitsCaptured(s: string)
    ensures Search(s, DigitsAt).Some? ==> forall k :: 0 <= k < |Search(s, DigitsAt).value| ==> IsDigit(Search(s, DigitsAt).value[k])
  {
    if Search(s, DigitsAt).Some? {
      var p := SearchWitness(s, DigitsAt);
    }
  }

  /** The match is the maximal run of digits that starts at the first digit. */
  lemma {:induction false} FirstDigitRun(s: string, p: nat)
    requires p < |s| && IsDigit(s[p])
    requires forall k :: 0 <= k < p ==> !IsDigit(s[k])
    ensures Search(s, DigitsAt) == Some(s[p..RunEnd(s, p, Digit)])
  {
    assert forall q :: 0 <= q < p ==> DigitsAt(s, q).None?;
    SearchFirst(s, DigitsAt, p);
  }
}
