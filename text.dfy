/** Character classes and string primitives shared by every stage of the
    translation pipeline: Python's whitespace test, ASCII case folding,
    `str.strip`, the first token of `str.split`, and case-insensitive search
    for a keyword literal.  Only ASCII is modelled: a whitespace character is
    one for which Python's `str.isspace` holds among the first 128 code
    points, and letters fold case only between `A`-`Z` and `a`-`z`. */
module Text {

  datatype Option<T> = None | Some(value: T)

  /** `str.isspace` (and the regex class `\s`) on ASCII: tab, line feed,
      vertical tab, form feed, carriage return, the four separators
      0x1C-0x1F and the space. */
  predicate IsSpace(c: char) {
    c == ' ' || c == '\t' || c == '\n' || c == '\r' || c == '\U{B}' || c == '\U{C}'
    || ('\U{1C}' <= c <= '\U{1F}')
  }

  /** The regex class `\d`, restricted to ASCII. */
  predicate IsDigit(c: char) {
    '0' <= c <= '9'
  }

  /** The regex class `\w`, restricted to ASCII. */
  predicate IsWordChar(c: char) {
    ('a' <= c <= 'z') || ('A' <= c <= 'Z') || IsDigit(c) || c == '_'
  }

  /** ASCII lower-casing, as `str.lower` and `re.IGNORECASE` do it on ASCII. */
  function Lower(c: char): char {
    if 'A' <= c <= 'Z' then (c as int + 32) as char else c
  }

  function LowerStr(s: string): (r: string)
    ensures |r| == |s|
    ensures forall i :: 0 <= i < |s| ==> r[i] == Lower(s[i])
  {
    seq(|s|, i requires 0 <= i < |s| => Lower(s[i]))
  }

  /** A word of lower-case ASCII letters. */
  predicate LowerWord(s: string) {
    s != [] && forall k :: 0 <= k < |s| ==> 'a' <= s[k] <= 'z'
  }

  /** A lower-case word is its own lower-case form and holds no whitespace. */
  lemma {:induction false} LowerWordIsToken(s: string)
    requires LowerWord(s)
    ensures LowerStr(s) == s && forall k :: 0 <= k < |s| ==> !IsSpace(s[k])
  {
  }

  /** A string the pattern-free `str.split()` would turn into no tokens. */
  predicate Blank(s: string) {
    forall k {:trigger IsSpace(s[k])} :: 0 <= k < |s| ==> IsSpace(s[k])
  }

  /** The character classes a regex run is made of: `\s`, `\S`, `\d`, `\w`. */
  datatype CharClass = Space | NonSpace | Digit | Word

  predicate InClass(c: char, cls: CharClass) {
    match cls
    case Space => IsSpace(c)
    case NonSpace => !IsSpace(c)
    case Digit => IsDigit(c)
    case Word => IsWordChar(c)
  }

  /** The end of the maximal run of characters of class `cls` that starts at `i`. */
  function RunEnd(s: string, i: nat, cls: CharClass): (r: nat)
    requires i <= |s|
    ensures i <= r <= |s|
    ensures forall k {:trigger InClass(s[k], cls)} :: i <= k < r ==> InClass(s[k], cls)
    ensures r < |s| ==> !InClass(s[r], cls)
    decreases |s| - i
  {
    if i == |s| || !InClass(s[i], cls) then i else RunEnd(s, i + 1, cls)
  }

  /** A run is determined by where it stops. */
  lemma {:induction false} RunEndIs(s: string, i: nat, cls: CharClass, j: nat)
    requires i <= j <= |s|
    requires forall k :: i <= k < j ==> InClass(s[k], cls)
    requires j < |s| ==> !InClass(s[j], cls)
    ensures RunEnd(s, i, cls) == j
  {
  }

  /** The start of the maximal run of characters of class `cls` that ends at `j`. */
  function RunStart(s: string, j: nat, cls: CharClass): (r: nat)
    requires j <= |s|
    ensures r <= j
    ensures forall k {:trigger InClass(s[k], cls)} :: r <= k < j ==> InClass(s[k], cls)
    ensures 0 < r ==> !InClass(s[r - 1], cls)
    decreases j
  {
    if j == 0 || !InClass(s[j - 1], cls) then j else RunStart(s, j - 1, cls)
  }

  /** The number of whitespace characters `s` begins with: where
      `str.lstrip()` starts. */
  function Indent(s: string): (n: nat)
    ensures n <= |s| && (n < |s| ==> !IsSpace(s[n]))
    ensures forall k {:trigger IsSpace(s[k])} :: 0 <= k < n ==> IsSpace(s[k])
  {
    var n := RunEnd(s, 0, Space);
    assert forall k {:trigger IsSpace(s[k])} :: 0 <= k < n ==> IsSpace(s[k]) by {
      forall k | 0 <= k < n ensures IsSpace(s[k]) {
        assert InClass(s[k], Space);
      }
    }
    assert n < |s| ==> !InClass(s[n], Space);
    n
  }

  /** Lower-casing leaves no upper-case letter, so doing it twice changes
      nothing. */
  lemma {:induction false} LowerStrFolds(s: string)
    ensures forall k :: 0 <= k < |LowerStr(s)| ==> !('A' <= LowerStr(s)[k] <= 'Z')
    ensures LowerStr(LowerStr(s)) == LowerStr(s)
  {
    var l := LowerStr(s);
    forall k | 0 <= k < |l| ensures !('A' <= l[k] <= 'Z') && Lower(l[k]) == l[k] {
      assert l[k] == Lower(s[k]);
    }
  }

  /** Non-empty text without whitespace at either end: what `str.strip()`
      leaves of text that is not blank, and leaves unchanged. */
  predicate Stripped(s: string) {
    s != [] && !IsSpace(s[0]) && !IsSpace(s[|s| - 1])
  }

  /** `str.strip()`: drop whitespace at both ends.  The result is the piece
      of the input after its leading whitespace, empty exactly for blank
      input and otherwise beginning and ending with a non-whitespace
      character; only whitespace follows it. */
  function Strip(s: string): (r: string)
    ensures Indent(s) + |r| <= |s| && r == s[Indent(s)..Indent(s) + |r|]
    ensures Blank(s[Indent(s) + |r|..])
    ensures r == [] <==> Blank(s)
    ensures r != [] ==> Stripped(r)
  {
    var i := Indent(s);
    if i == |s| then []
    else
      var j := RunStart(s, |s|, Space);
      assert !InClass(s[i], Space);
      assert 0 < j ==> !InClass(s[j - 1], Space);
      assert Blank(s[j..]) by {
        forall k | 0 <= k < |s| - j ensures IsSpace(s[j..][k]) {
          assert s[j..][k] == s[j + k] && InClass(s[j + k], Space);
        }
      }
      s[i..j]
  }

  /** Every character of `Strip(s)` is a character of `s`. */
  lemma {:induction false} StripChars(s: string, c: char)
    requires c in Strip(s)
    ensures c in s
  {
    var r := Strip(s);
    var i := Indent(s);
    var k :| 0 <= k < |r| && r[k] == c;
    assert s[i + k] == c;
  }

  /** Whitespace in front of stripped text is exactly what stripping
      removes. */
  lemma {:induction false} StripIndented(w: string, s: string)
    requires Blank(w) && (s == [] || Stripped(s))
    ensures Strip(w + s) == s
  {
    var x := w + s;
    forall k | 0 <= k < |w| ensures InClass(x[k], Space) {
      assert x[k] == w[k];
    }
    if s == [] {
      assert x == w;
      RunEndIs(x, 0, Space, |w|);
    } else {
      assert x[|w|] == s[0] && x[|x| - 1] == s[|s| - 1];
      assert !InClass(x[|w|], Space);
      RunEndIs(x, 0, Space, |w|);
      assert !InClass(x[|x| - 1], Space);
      assert RunStart(x, |x|, Space) == |x|;
      assert x[|w|..|x|] == s;
    }
  }

  /** Stripping is idempotent. */
  lemma {:induction false} StripStripped(s: string)
    requires s == [] || Stripped(s)
    ensures Strip(s) == s
  {
    StripIndented([], s);
    assert [] + s == s;
  }

  /** `str.split()[0]`, or the empty string when `str.split()` gives no
      token: the first maximal run of non-whitespace characters.  It is
      empty exactly for blank `s`, holds no whitespace, and only whitespace
      precedes it in `s`. */
  function FirstToken(s: string): (r: string)
    ensures |r| <= |s| && (r == [] <==> Blank(s))
    ensures forall k {:trigger IsSpace(r[k])} :: 0 <= k < |r| ==> !IsSpace(r[k])
    ensures Indent(s) + |r| <= |s| && s[Indent(s)..Indent(s) + |r|] == r
    ensures Indent(s) + |r| == |s| || IsSpace(s[Indent(s) + |r|])
  {
    var i := Indent(s);
    var e := RunEnd(s, i, NonSpace);
    assert forall k {:trigger IsSpace(s[i..e][k])} :: 0 <= k < e - i ==> !IsSpace(s[i..e][k]) by {
      forall k | 0 <= k < e - i ensures !IsSpace(s[i..e][k]) {
        assert s[i..e][k] == s[i + k] && InClass(s[i + k], NonSpace);
      }
    }
    assert i < |s| ==> InClass(s[i], NonSpace);
    assert e < |s| ==> !InClass(s[e], NonSpace);
    s[i..e]
  }

  /** A stripped, non-blank string begins with its first token, so slicing
      off the token's length removes exactly that token. */
  lemma {:induction false} FirstTokenIsPrefix(s: string)
    requires !Blank(s) && !IsSpace(s[0])
    ensures s == FirstToken(s) + s[|FirstToken(s)|..]
  {
    var r := FirstToken(s);
    assert Indent(s) == 0;
    assert s[..|r|] == r;
  }

  /** The first token is the non-whitespace run a string opens with. */
  lemma {:induction false} FirstTokenIs(s: string, n: nat)
    requires 0 < n <= |s|
    requires forall k :: 0 <= k < n ==> !IsSpace(s[k])
    requires n == |s| || IsSpace(s[n])
    ensures FirstToken(s) == s[..n]
  {
    assert Indent(s) == 0;
    forall k | 0 <= k < n ensures InClass(s[k], NonSpace) {
      assert !IsSpace(s[k]);
    }
    RunEndIs(s, 0, NonSpace, n);
    assert s[0..n] == s[..n];
  }

  /** The end of the line that position `q` is on: the first line feed at or
      after `q`, or the end of `s`.  The regex `.` matches every character
      before it and not the line feed itself. */
  function LineEnd(s: string, q: nat): (r: nat)
    requires q <= |s|
    ensures q <= r <= |s|
    ensures forall k :: q <= k < r ==> s[k] != '\n'
    ensures r < |s| ==> s[r] == '\n'
    decreases |s| - q
  {
    if q == |s| || s[q] == '\n' then q else LineEnd(s, q + 1)
  }

  /** The `t`-th character of the keyword `w` is the lower-case form of the
      character of `s` at `i + t`. */
  predicate Folds(s: string, i: nat, w: string, t: nat)
    requires i + t < |s| && t < |w|
  {
    Lower(s[i + t]) == w[t]
  }

  /** The keyword `w` (written in lower case, free of line feeds) occurs at
      position `i` of `s`, compared case-insensitively: it fits there and
      each of its characters folds from the character of `s` in its place. */
  predicate LitAt(s: string, i: nat, w: string) {
    i + |w| <= |s| && forall t {:trigger Folds(s, i, w, t)} :: 0 <= t < |w| ==> Folds(s, i, w, t)
  }

  /** The keyword test as `re.IGNORECASE` states it: the piece of `s` where
      `w` fits, lower-cased, is `w`. */
  lemma {:induction false} LitAtLower(s: string, i: nat, w: string)
    ensures LitAt(s, i, w) <==> i + |w| <= |s| && LowerStr(s[i..i + |w|]) == w
  {
    if i + |w| <= |s| {
      var l := LowerStr(s[i..i + |w|]);
      assert forall t :: 0 <= t < |w| ==> l[t] == Lower(s[i + t]);
      if LitAt(s, i, w) {
        forall t | 0 <= t < |w| ensures l[t] == w[t] {
          assert Folds(s, i, w, t);
        }
      }
      if l == w {
        forall t | 0 <= t < |w| ensures Folds(s, i, w, t) {
          assert l[t] == w[t];
        }
      }
    }
  }

  /** A one-character keyword that is not a letter occurs exactly where that
      character is. */
  lemma {:induction false} LitAtChar(s: string, k: nat, c: char)
    requires !('a' <= c <= 'z') && !('A' <= c <= 'Z')
    ensures LitAt(s, k, [c]) <==> k < |s| && s[k] == c
  {
    if k < |s| {
      assert Folds(s, k, [c], 0) <==> s[k] == c;
    }
  }

  /** A keyword does not occur where one of its characters is missing. */
  lemma {:induction false} NotLitAt(s: string, i: nat, w: string, t: nat)
    requires t < |w| && i + t < |s| && Lower(s[i + t]) != w[t]
    ensures !LitAt(s, i, w)
  {
    assert !Folds(s, i, w, t);
  }

  /** A keyword cannot occur in a string none of whose characters folds to
      the keyword's `t`-th character. */
  lemma {:induction false} LitAbsent(s: string, w: string, t: nat)
    requires t < |w|
    requires forall k :: 0 <= k < |s| ==> Lower(s[k]) != w[t]
    ensures forall j: nat :: !LitAt(s, j, w)
  {
    forall j: nat | j + |w| <= |s| ensures !LitAt(s, j, w) {
      NotLitAt(s, j, w, t);
    }
  }

  /** The last occurrence `j` of `w` with `lo < j` that ends by `hi`: where a
      greedy capture starting at `lo` gives back characters until `w` follows. */
  function LastLit(s: string, lo: nat, hi: nat, w: string): (r: Option<nat>)
    ensures r.Some? ==> lo < r.value && r.value + |w| <= hi && LitAt(s, r.value, w)
    decreases hi
  {
    if hi < lo + 1 + |w| then None
    else if LitAt(s, hi - |w|, w) then Some(hi - |w|)
    else LastLit(s, lo, hi - 1, w)
  }

  /** `LastLit` finds the last occurrence: none follows it, and it finds
      none only where there is none. */
  lemma {:induction false} LastLitMeaning(s: string, lo: nat, hi: nat, w: string)
    ensures LastLit(s, lo, hi, w).Some? ==> forall j :: LastLit(s, lo, hi, w).value < j && j + |w| <= hi ==> !LitAt(s, j, w)
    ensures LastLit(s, lo, hi, w).None? ==> forall j :: lo < j && j + |w| <= hi ==> !LitAt(s, j, w)
    decreases hi
  {
    if hi >= lo + 1 + |w| && !LitAt(s, hi - |w|, w) {
      LastLitMeaning(s, lo, hi - 1, w);
    }
  }

  /** The first occurrence `j` of `w` with `lo < j` that ends by `hi`: where a
      lazy capture starting at `lo` stops taking characters. */
  function FirstLit(s: string, lo: nat, hi: nat, w: string): (r: Option<nat>)
    ensures r.Some? ==> lo < r.value && r.value + |w| <= hi && LitAt(s, r.value, w)
    decreases hi - lo
  {
    if hi < lo + 1 + |w| then None
    else if LitAt(s, lo + 1, w) then Some(lo + 1)
    else FirstLit(s, lo + 1, hi, w)
  }

  /** `FirstLit` finds the first occurrence: none precedes it, and it finds
      none only where there is none. */
  lemma {:induction false} FirstLitMeaning(s: string, lo: nat, hi: nat, w: string)
    ensures FirstLit(s, lo, hi, w).Some? ==> forall j :: lo < j < FirstLit(s, lo, hi, w).value ==> !LitAt(s, j, w)
    ensures FirstLit(s, lo, hi, w).None? ==> forall j :: lo < j && j + |w| <= hi ==> !LitAt(s, j, w)
    decreases hi - lo
  {
    if hi >= lo + 1 + |w| && !LitAt(s, lo + 1, w) {
      FirstLitMeaning(s, lo + 1, hi, w);
    }
  }

  /** An occurrence with none after it up to `hi` is the last one. */
  lemma {:induction false} LastLitIs(s: string, lo: nat, hi: nat, w: string, j: nat)
    requires lo < j && j + |w| <= hi && LitAt(s, j, w)
    requires forall j' :: j < j' && j' + |w| <= hi ==> !LitAt(s, j', w)
    ensures LastLit(s, lo, hi, w) == Some(j)
  {
    LastLitMeaning(s, lo, hi, w);
  }

  /** An occurrence with none before it after `lo` is the first one. */
  lemma {:induction false} FirstLitIs(s: string, lo: nat, hi: nat, w: string, j: nat)
    requires lo < j && j + |w| <= hi && LitAt(s, j, w)
    requires forall j' :: lo < j' < j ==> !LitAt(s, j', w)
    ensures FirstLit(s, lo, hi, w) == Some(j)
  {
    FirstLitMeaning(s, lo, hi, w);
  }

  /** A lower-case keyword occurs wherever its text does. */
  lemma {:induction false} LitAtIs(s: string, j: nat, w: string)
    requires j + |w| <= |s| && s[j..j + |w|] == w
    requires forall k :: 0 <= k < |w| ==> !('A' <= w[k] <= 'Z')
    ensures LitAt(s, j, w)
  {
    forall t | 0 <= t < |w| ensures Folds(s, j, w, t) {
      assert s[j + t] == s[j..j + |w|][t];
    }
  }

  /** Concatenation regrouped. */
  lemma {:induction false} Assoc(a: string, b: string, c: string)
    ensures a + (b + c) == (a + b) + c
  {
  }
}
