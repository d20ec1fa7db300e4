/** Sentence splitting: the description is cut at every `.`, `!` and `?`,
    each piece is stripped of surrounding whitespace, and empty pieces are
    dropped. */
module Sentences {
  import opened Text

  predicate IsTerminator(c: char) {
    c == '.' || c == '!' || c == '?'
  }

  predicate NoTerminator(s: string) {
    forall k :: 0 <= k < |s| ==> !IsTerminator(s[k])
  }

  /** `re.split(r"[.!?]", text)`: the pieces between terminators, one more
      than there are terminators. */
  function SplitPieces(text: string): (r: seq<string>)
    ensures |r| >= 1
    ensures forall i :: 0 <= i < |r| ==> NoTerminator(r[i])
  {
    if text == [] then [""]
    else if IsTerminator(text[0]) then [""] + SplitPieces(text[1..])
    else
      var ps := SplitPieces(text[1..]);
      [[text[0]] + ps[0]] + ps[1..]
  }

  /** Text without a terminator is one piece. */
  lemma {:induction false} PiecesOfPlain(a: string)
    requires NoTerminator(a)
    ensures SplitPieces(a) == [a]
    decreases |a|
  {
    if a != [] {
      PiecesOfPlain(a[1..]);
      assert [a[0]] + a[1..] == a;
    }
  }

  /** Cutting at a terminator splits the pieces in two. */
  lemma {:induction false} PiecesAppend(a: string, t: char, b: string)
    requires IsTerminator(t)
    ensures SplitPieces(a + [t] + b) == SplitPieces(a) + SplitPieces(b)
    decreases |a|
  {
    var s := a + [t] + b;
    if a == [] {
      assert s == [t] + b && s[1..] == b;
    } else {
      assert s[0] == a[0] && s[1..] == a[1..] + [t] + b;
      PiecesAppend(a[1..], t, b);
    }
  }

  /** The stripped non-empty pieces, in order. */
  function Fragments(pieces: seq<string>): (r: seq<string>)
    ensures |r| <= |pieces|
    ensures forall i :: 0 <= i < |r| ==> Stripped(r[i])
  {
    if pieces == [] then []
    else
      var f := Strip(pieces[0]);
      (if f != [] then [f] else []) + Fragments(pieces[1..])
  }

  lemma {:induction false} FragmentsAppend(x: seq<string>, y: seq<string>)
    ensures Fragments(x + y) == Fragments(x) + Fragments(y)
    decreases |x|
  {
    if x == [] {
      assert x + y == y;
    } else {
      assert (x + y)[0] == x[0] && (x + y)[1..] == x[1..] + y;
      FragmentsAppend(x[1..], y);
    }
  }

  lemma {:induction false} FragmentsKeepNoTerminator(pieces: seq<string>)
    requires forall i :: 0 <= i < |pieces| ==> NoTerminator(pieces[i])
    ensures forall i :: 0 <= i < |Fragments(pieces)| ==> NoTerminator(Fragments(pieces)[i])
    decreases |pieces|
  {
    if pieces != [] {
      FragmentsKeepNoTerminator(pieces[1..]);
      var f := Strip(pieces[0]);
      forall k | 0 <= k < |f| ensures !IsTerminator(f[k]) {
        StripChars(pieces[0], f[k]);
      }
      var r := Fragments(pieces);
      forall i | 0 <= i < |r| ensures NoTerminator(r[i]) {
        if f == [] {
          assert r == Fragments(pieces[1..]);
        } else if i > 0 {
          assert r[i] == Fragments(pieces[1..])[i - 1];
        }
      }
    }
  }

  /** `split_sentences(text)`: every sentence is non-empty, already stripped
      and free of terminators. */
  function SplitSentences(text: string): (r: seq<string>)
    ensures forall i :: 0 <= i < |r| ==> Stripped(r[i]) && NoTerminator(r[i])
  {
    FragmentsKeepNoTerminator(SplitPieces(text));
    Fragments(SplitPieces(text))
  }

  /** Text without a terminator is one sentence, its stripped self, or none
      when it is blank. */
  lemma {:induction false} SentencesOfPlain(text: string)
    requires NoTerminator(text)
    ensures Blank(text) ==> SplitSentences(text) == []
    ensures !Blank(text) ==> SplitSentences(text) == [Strip(text)]
  {
    PiecesOfPlain(text);
    assert Fragments([text]) == (if Strip(text) != [] then [Strip(text)] else []) + Fragments([]);
  }

  /** Sentences of text cut at a terminator are the sentences of the part
      before it followed by those of the part after it. */
  lemma {:induction false} SentencesAppend(a: string, t: char, b: string)
    requires IsTerminator(t)
    ensures SplitSentences(a + [t] + b) == SplitSentences(a) + SplitSentences(b)
  {
    PiecesAppend(a, t, b);
    FragmentsAppend(SplitPieces(a), SplitPieces(b));
  }

  /** The position of the first terminator, if there is one. */
  function FirstTerminator(text: string): (r: Option<nat>)
    ensures r.Some? ==> r.value < |text| && IsTerminator(text[r.value]) && NoTerminator(text[..r.value])
    ensures r.None? ==> NoTerminator(text)
  {
    if text == [] then None
    else if IsTerminator(text[0]) then Some(0)
    else
      match FirstTerminator(text[1..])
      case None => None
      case Some(i) =>
        assert text[..i + 1] == [text[0]] + text[1..][..i];
        Some(i + 1)
  }

  /** A text yields no sentence exactly when it is made of whitespace and
      terminators only. */
  lemma {:induction false} NoSentencesIff(text: string)
    ensures SplitSentences(text) == [] <==> forall k :: 0 <= k < |text| ==> IsSpace(text[k]) || IsTerminator(text[k])
    decreases |text|
  {
    match FirstTerminator(text)
    case None =>
      SentencesOfPlain(text);
    case Some(i) =>
      var a, b := text[..i], text[i + 1..];
      assert text == a + [text[i]] + b;
      SentencesAppend(a, text[i], b);
      SentencesOfPlain(a);
      NoSentencesIff(b);
      if SplitSentences(text) == [] {
        forall k | 0 <= k < |text| ensures IsSpace(text[k]) || IsTerminator(text[k]) {
          if k < i { assert text[k] == a[k]; }
          else if k > i { assert text[k] == b[k - i - 1]; }
        }
      } else if forall k :: 0 <= k < |text| ==> IsSpace(text[k]) || IsTerminator(text[k]) {
        assert Blank(a) by {
          forall k | 0 <= k < |a| ensures IsSpace(a[k]) { assert a[k] == text[k]; }
        }
        forall k | 0 <= k < |b| ensures IsSpace(b[k]) || IsTerminator(b[k]) { assert b[k] == text[k + i + 1]; }
      }
  }
}
