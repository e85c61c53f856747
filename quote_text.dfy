/**
 * The quote formatter's text transformation: inside every pair of double
 * quotes, matched left to right and without nesting (1st with 2nd, 3rd with
 * 4th, ...), all asterisks are deleted; everything else is copied through.
 *
 * `Transform` follows the global replace with the pattern "a quote, a run of
 * non-quote characters, a quote" literally; `Scan` and `Kept` are two
 * independent descriptions of the same result (a single left-to-right pass,
 * and a per-position rule), and the lemmas below tie them together.
 */
module QuoteText {

  /** A JavaScript value as the formatter sees it: a string, or anything else
      (undefined, null, a number, an object, ...). */
  datatype JsValue = Str(chars: string) | NotString

  /** The value is a string and is truthy, that is, not empty. */
  predicate IsNonEmptyString(v: JsValue) {
    v.Str? && v.chars != []
  }

  /** `s` contains a double quote. */
  predicate HasQuote(s: string) {
    s != [] && (s[0] == '"' || HasQuote(s[1..]))
  }

  /** Number of double-quote characters in `s`. */
  function QuoteCount(s: string): (n: nat) {
    if s == [] then 0
    else (if s[0] == '"' then 1 else 0) + QuoteCount(s[1..])
  }

  /** Index of the first double quote in `s`, or `|s|` when there is none
      (`FindQuoteIsQuote`, `FindQuotePrefix` and `FindQuoteNone`). */
  function FindQuote(s: string): (k: nat)
    ensures k <= |s|
  {
    if s == [] then 0
    else if s[0] == '"' then 0
    else 1 + FindQuote(s[1..])
  }

  /** `content.replace(/\*\/g, '')`: `s` with every asterisk deleted. */
  function StripStars(s: string): (r: string)
  {
    if s == [] then []
    else (if s[0] == '*' then [] else [s[0]]) + StripStars(s[1..])
  }

  /** Where the next match of the pattern "a quote, a run of non-quote
      characters, a quote" lies: the text before it, the captured interior,
      and the text after it. */
  datatype Match = NoMatch | Match(before: string, inner: string, after: string)

  /** The leftmost match in `s`: from the first quote to the next one. */
  function NextMatch(s: string): (r: Match)
    ensures r.Match? ==> |r.after| < |s|
  {
    var i := FindQuote(s);
    if i == |s| then NoMatch
    else
      var rest := s[i + 1..];
      var j := FindQuote(rest);
      if j == |rest| then NoMatch
      else Match(s[..i], rest[..j], rest[j + 1..])
  }

  /**
   * `text.replace(/"([^"]*)"/g, ...)`: at each match emit the pair with its
   * interior stripped of asterisks and go on after the closing quote; when no
   * match is left the rest is copied unchanged.  (The concatenation is
   * written right-nested.)
   */
  function Transform(s: string): (r: string)
    decreases |s|
  {
    match NextMatch(s)
    case NoMatch => s
    case Match(before, inner, after) =>
      before + (['"'] + (StripStars(inner) + (['"'] + Transform(after))))
  }

  /** `removeAsterisksFromQuotes(text)`: a falsy or non-string value is
      returned as it is; a non-empty string is transformed. */
  function RemoveAsterisksFromQuotes(v: JsValue): (r: JsValue)
    ensures r.Str? <==> v.Str?
    ensures !IsNonEmptyString(v) ==> r == v
    ensures IsNonEmptyString(v) ==> r.chars == Transform(v.chars)
  {
    if !IsNonEmptyString(v) then v
    else Str(Transform(v.chars))
  }

  // ---------------------------------------------------------------------
  // Reference definitions

  /**
   * A single left-to-right pass.  `open` says an odd number of quotes has been
   * passed; an asterisk is dropped when it lies after such an opening quote and
   * some later quote closes the pair.
   */
  function Scan(s: string, open: bool): (r: string)
  {
    if s == [] then []
    else if s[0] == '"' then ['"'] + Scan(s[1..], !open)
    else if s[0] == '*' && open && HasQuote(s[1..]) then Scan(s[1..], open)
    else [s[0]] + Scan(s[1..], open)
  }

  /** Position `i` lies strictly between the (2k-1)-th and the 2k-th quote of
      `s` for some k: an odd number of quotes precede it and one follows it. */
  predicate InsidePair(s: string, i: nat)
    requires i < |s|
  {
    QuoteCount(s[..i]) % 2 == 1 && HasQuote(s[i + 1..])
  }

  /** The characters of `s` from position `i` on, in order, except the
      asterisks that lie inside a quote pair. */
  function Kept(s: string, i: nat): (r: string)
    requires i <= |s|
    decreases |s| - i
  {
    if i == |s| then []
    else (if s[i] == '*' && InsidePair(s, i) then [] else [s[i]]) + Kept(s, i + 1)
  }

  /** `r` is `s` with some (maybe none, maybe all) of its asterisks deleted,
      and nothing else changed. */
  predicate IsStarDeletion(r: string, s: string)
    decreases |s|
  {
    if s == [] then r == []
    else
      || (r != [] && r[0] == s[0] && IsStarDeletion(r[1..], s[1..]))
      || (s[0] == '*' && IsStarDeletion(r, s[1..]))
  }

  // ---------------------------------------------------------------------
  // Unfolding on a first character, and concatenation

  lemma HasQuoteCons(c: char, u: string)
    ensures HasQuote([c] + u) == (c == '"' || HasQuote(u))
  {
    assert ([c] + u)[0] == c && ([c] + u)[1..] == u;
  }

  lemma ScanCons(c: char, u: string, open: bool)
    ensures Scan([c] + u, open)
         == if c == '"' then ['"'] + Scan(u, !open)
            else if c == '*' && open && HasQuote(u) then Scan(u, open)
            else [c] + Scan(u, open)
  {
    assert ([c] + u)[0] == c && ([c] + u)[1..] == u;
  }

  lemma StripStarsCons(c: char, u: string)
    ensures StripStars([c] + u) == if c == '*' then StripStars(u) else [c] + StripStars(u)
  {
    assert ([c] + u)[0] == c && ([c] + u)[1..] == u;
  }

  lemma FindQuoteCons(c: char, u: string)
    ensures FindQuote([c] + u) == if c == '"' then 0 else 1 + FindQuote(u)
  {
    assert ([c] + u)[0] == c && ([c] + u)[1..] == u;
  }

  /** The recursive predicate is membership of the quote character. */
  lemma {:induction false} HasQuoteIsIn(s: string)
    ensures HasQuote(s) <==> '"' in s
  {
    if s != [] {
      assert s == [s[0]] + s[1..];
      HasQuoteIsIn(s[1..]);
    }
  }

  lemma {:induction false} HasQuoteConcat(p: string, t: string)
    ensures HasQuote(p + t) == (HasQuote(p) || HasQuote(t))
  {
    if p == [] {
      assert p + t == t;
    } else {
      var c, p' := p[0], p[1..];
      assert p == [c] + p' && p + t == [c] + (p' + t);
      HasQuoteCons(c, p');
      HasQuoteCons(c, p' + t);
      HasQuoteConcat(p', t);
    }
  }

  lemma {:induction false} QuoteCountConcat(a: string, b: string)
    ensures QuoteCount(a + b) == QuoteCount(a) + QuoteCount(b)
  {
    if a == [] {
      assert a + b == b;
    } else {
      assert (a + b)[0] == a[0];
      assert (a + b)[1..] == a[1..] + b;
      QuoteCountConcat(a[1..], b);
    }
  }

  lemma {:induction false} FindQuoteAfter(p: string, t: string)
    requires !HasQuote(p)
    ensures FindQuote(p + t) == |p| + FindQuote(t)
  {
    if p == [] {
      assert p + t == t;
    } else {
      var c, p' := p[0], p[1..];
      assert p == [c] + p' && p + t == [c] + (p' + t);
      HasQuoteCons(c, p');
      FindQuoteCons(c, p' + t);
      FindQuoteAfter(p', t);
    }
  }

  lemma {:induction false} FindQuotePrefix(s: string)
    ensures !HasQuote(s[..FindQuote(s)])
  {
    if s != [] && s[0] != '"' {
      var k := FindQuote(s);
      assert s[..k] == [s[0]] + s[1..][..k - 1];
      HasQuoteCons(s[0], s[1..][..k - 1]);
      FindQuotePrefix(s[1..]);
    }
  }

  /** The search stops at a quote. */
  lemma {:induction false} FindQuoteIsQuote(s: string)
    ensures FindQuote(s) < |s| ==> s[FindQuote(s)] == '"'
  {
    if s != [] && s[0] != '"' {
      FindQuoteIsQuote(s[1..]);
    }
  }

  /** The search runs to the end exactly when there is no quote. */
  lemma {:induction false} FindQuoteNone(s: string)
    ensures FindQuote(s) == |s| <==> !HasQuote(s)
  {
    if s != [] && s[0] != '"' {
      FindQuoteNone(s[1..]);
    }
  }

  /** Deleting asterisks brings in no quote. */
  lemma {:induction false} StripStarsNoQuote(s: string)
    requires !HasQuote(s)
    ensures !HasQuote(StripStars(s))
  {
    if s != [] {
      var c, s' := s[0], s[1..];
      assert s == [c] + s';
      HasQuoteCons(c, s');
      StripStarsCons(c, s');
      StripStarsNoQuote(s');
      HasQuoteCons(c, StripStars(s'));
    }
  }

  /** Deleting asterisks a second time changes nothing. */
  lemma {:induction false} StripStarsIdempotent(s: string)
    ensures StripStars(StripStars(s)) == StripStars(s)
  {
    if s != [] {
      var c, s' := s[0], s[1..];
      assert s == [c] + s';
      StripStarsCons(c, s');
      StripStarsIdempotent(s');
      if c != '*' {
        StripStarsCons(c, StripStars(s'));
      }
    }
  }

  /** Every asterisk is deleted, and nothing else is. */
  lemma {:induction false} StripStarsSpec(s: string)
    ensures forall k :: 0 <= k < |StripStars(s)| ==> StripStars(s)[k] != '*'
    ensures IsStarDeletion(StripStars(s), s)
  {
    if s != [] {
      var c, s' := s[0], s[1..];
      assert s == [c] + s';
      StripStarsCons(c, s');
      StripStarsSpec(s');
      var r := StripStars(s);
      if c != '*' {
        assert r == [c] + StripStars(s');
        assert r[0] == c && r[1..] == StripStars(s');
      }
    }
  }

  lemma {:induction false} StripStarsKeepsQuotes(s: string)
    ensures QuoteCount(StripStars(s)) == QuoteCount(s)
  {
    if s != [] {
      StripStarsKeepsQuotes(s[1..]);
      QuoteCountConcat(if s[0] == '*' then [] else [s[0]], StripStars(s[1..]));
    }
  }

  // ---------------------------------------------------------------------
  // The single pass over the pieces of one match

  lemma {:induction false} ScanClosedPrefix(p: string, t: string)
    requires !HasQuote(p)
    ensures Scan(p + t, false) == p + Scan(t, false)
  {
    if p == [] {
      assert p + t == t;
    } else {
      var c, p' := p[0], p[1..];
      assert p == [c] + p';
      HasQuoteCons(c, p');
      var rest := p' + t;
      assert p + t == [c] + rest;
      ScanCons(c, rest, false);
      ScanClosedPrefix(p', t);
      var y := Scan(t, false);
      assert Scan(p + t, false) == [c] + (p' + y);
      assert [c] + (p' + y) == ([c] + p') + y;
    }
  }

  lemma {:induction false} ScanNoQuote(t: string, open: bool)
    requires !HasQuote(t)
    ensures Scan(t, open) == t
  {
    if t != [] {
      var c, t' := t[0], t[1..];
      assert t == [c] + t';
      HasQuoteCons(c, t');
      ScanCons(c, t', open);
      ScanNoQuote(t', open);
    }
  }

  lemma {:induction false} ScanOpenPrefix(p: string, t: string)
    requires !HasQuote(p) && HasQuote(t)
    ensures Scan(p + t, true) == StripStars(p) + Scan(t, true)
  {
    if p == [] {
      assert p + t == t;
    } else {
      var c, p' := p[0], p[1..];
      var rest := p' + t;
      assert p == [c] + p';
      assert p + t == [c] + rest;
      assert c != '"' && !HasQuote(p') && HasQuote(rest) by {
        HasQuoteCons(c, p');
        HasQuoteConcat(p', t);
      }
      ScanOpenPrefix(p', t);
      var x, y := StripStars(p'), Scan(t, true);
      if c == '*' {
        assert Scan(p + t, true) == x + y by {
          ScanCons(c, rest, true);
        }
        assert StripStars(p) == x by {
          StripStarsCons(c, p');
        }
      } else {
        assert Scan(p + t, true) == [c] + (x + y) by {
          ScanCons(c, rest, true);
        }
        assert StripStars(p) == [c] + x by {
          StripStarsCons(c, p');
        }
        assert [c] + (x + y) == ([c] + x) + y;
      }
    }
  }

  /** An unmatched quote: the pass copies everything. */
  lemma ScanUnmatched(p: string, u: string)
    requires !HasQuote(p) && !HasQuote(u)
    ensures Scan(p + (['"'] + u), false) == p + (['"'] + u)
  {
    ScanCons('"', u, false);
    ScanNoQuote(u, true);
    ScanClosedPrefix(p, ['"'] + u);
  }

  /** A quote pair: the pass strips the interior and goes on closed. */
  lemma ScanPair(p: string, m: string, u: string)
    requires !HasQuote(p) && !HasQuote(m)
    ensures Scan(p + (['"'] + (m + (['"'] + u))), false)
         == p + (['"'] + (StripStars(m) + (['"'] + Scan(u, false))))
  {
    var t := ['"'] + u;
    HasQuoteCons('"', u);
    ScanCons('"', u, true);
    ScanOpenPrefix(m, t);
    ScanCons('"', m + t, false);
    ScanClosedPrefix(p, ['"'] + (m + t));
  }

  // ---------------------------------------------------------------------
  // Properties of the transformation

  /** A string cut at its first quote. */
  lemma SplitAtQuote(s: string, i: nat)
    requires i == FindQuote(s) < |s|
    ensures s == s[..i] + (['"'] + s[i + 1..])
  {
    FindQuoteIsQuote(s);
    assert s[i..] == ['"'] + s[i + 1..];
    assert s == s[..i] + s[i..];
  }

  /** A match cuts the text into a quote-free prefix, a quote, a quote-free
      interior, a quote and the rest. */
  lemma NextMatchSplit(s: string)
    requires NextMatch(s).Match?
    ensures var r := NextMatch(s);
      && s == r.before + (['"'] + (r.inner + (['"'] + r.after)))
      && !HasQuote(r.before) && !HasQuote(r.inner)
  {
    var i := FindQuote(s);
    var rest := s[i + 1..];
    var j := FindQuote(rest);
    var p, m, u := s[..i], rest[..j], rest[j + 1..];
    assert NextMatch(s) == Match(p, m, u);
    assert s == p + (['"'] + rest) && !HasQuote(p) by {
      FindQuotePrefix(s);
      SplitAtQuote(s, i);
    }
    assert rest == m + (['"'] + u) && !HasQuote(m) by {
      FindQuotePrefix(rest);
      SplitAtQuote(rest, j);
    }
  }

  /** Without a match the text has at most one quote, and the single pass
      copies it. */
  lemma ScanNoMatch(s: string)
    requires NextMatch(s).NoMatch?
    ensures Scan(s, false) == s
  {
    var i := FindQuote(s);
    if i == |s| {
      FindQuoteNone(s);
      ScanNoQuote(s, false);
    } else {
      var rest := s[i + 1..];
      FindQuoteNone(rest);
      FindQuotePrefix(s);
      SplitAtQuote(s, i);
      ScanUnmatched(s[..i], rest);
    }
  }

  /** The leftmost match of a text written as prefix, quoted interior and
      rest, with no quote in the prefix or the interior. */
  lemma NextMatchAt(p: string, m: string, u: string)
    requires !HasQuote(p) && !HasQuote(m)
    ensures NextMatch(p + (['"'] + (m + (['"'] + u)))) == Match(p, m, u)
  {
    FindQuoteAt(p, m + (['"'] + u));
    FindQuoteAt(m, u);
  }

  lemma {:induction false} NoQuoteNoCount(s: string)
    requires !HasQuote(s)
    ensures QuoteCount(s) == 0
  {
    if s != [] {
      NoQuoteNoCount(s[1..]);
    }
  }

  /** The pattern matches exactly when the text holds at least two quotes. */
  lemma NextMatchFound(s: string)
    ensures NextMatch(s).Match? <==> QuoteCount(s) >= 2
  {
    var i := FindQuote(s);
    if NextMatch(s).Match? {
      var r := NextMatch(s);
      NextMatchSplit(s);
      var t := r.inner + (['"'] + r.after);
      QuoteCountConcat(r.before, ['"'] + t);
      QuoteCountConcat(['"'], t);
      QuoteCountConcat(r.inner, ['"'] + r.after);
      QuoteCountConcat(['"'], r.after);
    } else if i == |s| {
      FindQuoteNone(s);
      NoQuoteNoCount(s);
    } else {
      var rest := s[i + 1..];
      FindQuoteNone(rest);
      FindQuotePrefix(s);
      SplitAtQuote(s, i);
      NoQuoteNoCount(s[..i]);
      NoQuoteNoCount(rest);
      QuoteCountConcat(s[..i], ['"'] + rest);
      QuoteCountConcat(['"'], rest);
    }
  }

  /** The regex-driven transformation agrees with the single pass. */
  lemma {:induction false} TransformIsScan(s: string)
    ensures Transform(s) == Scan(s, false)
    decreases |s|
  {
    var r := NextMatch(s);
    if r.NoMatch? {
      ScanNoMatch(s);
    } else {
      NextMatchSplit(s);
      ScanPair(r.before, r.inner, r.after);
      TransformIsScan(r.after);
    }
  }

  /** The single pass, started at position `i` with the parity of the quotes
      before `i`, emits exactly the characters `Kept` keeps. */
  lemma {:induction false} ScanIsKept(s: string, i: nat)
    requires i <= |s|
    ensures Scan(s[i..], QuoteCount(s[..i]) % 2 == 1) == Kept(s, i)
    decreases |s| - i
  {
    if i < |s| {
      var c, u := s[i], s[i + 1..];
      var open := QuoteCount(s[..i]) % 2 == 1;
      assert s[..i + 1] == s[..i] + [c];
      QuoteCountConcat(s[..i], [c]);
      assert QuoteCount([c]) == if c == '"' then 1 else 0;
      assert s[i..] == [c] + u;
      ScanCons(c, u, open);
      ScanIsKept(s, i + 1);
      assert (QuoteCount(s[..i + 1]) % 2 == 1) == (if c == '"' then !open else open);
    }
  }

  /** Exactly the asterisks lying inside a quote pair are deleted; every other
      character, including asterisks before the first quote, between pairs and
      after an unmatched final quote, is kept in order. */
  lemma TransformKeepsExactly(s: string)
    ensures Transform(s) == Kept(s, 0)
  {
    assert s[..0] == [];
    assert s[0..] == s;
    ScanIsKept(s, 0);
    assert Scan(s, false) == Kept(s, 0);
    TransformIsScan(s);
  }

  /** A string without any double quote is returned unchanged. */
  lemma TransformWithoutQuotes(s: string)
    requires '"' !in s
    ensures Transform(s) == s
  {
    HasQuoteIsIn(s);
    FindQuoteNone(s);
    assert NextMatch(s) == NoMatch;
  }

  lemma {:induction false} ScanDeletesOnlyStars(s: string, open: bool)
    ensures IsStarDeletion(Scan(s, open), s)
  {
    if s != [] {
      var c, s' := s[0], s[1..];
      var open' := if c == '"' then !open else open;
      ScanDeletesOnlyStars(s', open');
      var r := Scan(s, open);
      if !(c == '*' && open && HasQuote(s')) {
        assert r == [c] + Scan(s', open');
        assert r[0] == c && r[1..] == Scan(s', open');
      }
    }
  }

  /** The output is the input with some asterisks deleted and nothing else
      added, removed or reordered. */
  lemma TransformDeletesOnlyStars(s: string)
    ensures IsStarDeletion(Transform(s), s)
  {
    TransformIsScan(s);
    ScanDeletesOnlyStars(s, false);
  }

  lemma {:induction false} StarDeletionKeepsNonStars(r: string, s: string)
    requires IsStarDeletion(r, s)
    ensures StripStars(r) == StripStars(s)
    decreases |s|
  {
    if s != [] {
      if r != [] && r[0] == s[0] && IsStarDeletion(r[1..], s[1..]) {
        StarDeletionKeepsNonStars(r[1..], s[1..]);
      } else {
        StarDeletionKeepsNonStars(r, s[1..]);
      }
    }
  }

  lemma {:induction false} StarDeletionNotLonger(r: string, s: string)
    requires IsStarDeletion(r, s)
    ensures |r| <= |s|
    decreases |s|
  {
    if s != [] {
      if r != [] && r[0] == s[0] && IsStarDeletion(r[1..], s[1..]) {
        StarDeletionNotLonger(r[1..], s[1..]);
      } else {
        StarDeletionNotLonger(r, s[1..]);
      }
    }
  }

  /** The replace never lengthens the text. */
  lemma TransformNotLonger(s: string)
    ensures |Transform(s)| <= |s|
  {
    TransformDeletesOnlyStars(s);
    StarDeletionNotLonger(Transform(s), s);
  }

  /** Deleting every asterisk from the output gives the same string as
      deleting every asterisk from the input. */
  lemma TransformKeepsNonStars(s: string)
    ensures StripStars(Transform(s)) == StripStars(s)
  {
    TransformDeletesOnlyStars(s);
    StarDeletionKeepsNonStars(Transform(s), s);
  }

  /** The output has as many double quotes as the input (and, since only
      asterisks are deleted, in the same places relative to the other text). */
  lemma TransformKeepsQuotes(s: string)
    ensures QuoteCount(Transform(s)) == QuoteCount(s)
  {
    TransformKeepsNonStars(s);
    StripStarsKeepsQuotes(Transform(s));
    StripStarsKeepsQuotes(s);
  }

  /** Cutting `p + (['"'] + t)` at its first quote gives back `p` and `t`. */
  lemma FindQuoteAt(p: string, t: string)
    requires !HasQuote(p)
    ensures FindQuote(p + (['"'] + t)) == |p|
    ensures (p + (['"'] + t))[..|p|] == p
    ensures (p + (['"'] + t))[|p| + 1..] == t
  {
    var w := ['"'] + t;
    FindQuoteAfter(p, w);
    FindQuoteCons('"', t);
    assert (p + w)[|p|..] == w;
    assert w[1..] == t;
  }

  /** One step of the replace: a quote-free prefix, then a quote pair whose
      interior has no quote, then anything. */
  lemma TransformStep(p: string, m: string, u: string)
    requires !HasQuote(p) && !HasQuote(m)
    ensures Transform(p + (['"'] + (m + (['"'] + u))))
         == p + (['"'] + (StripStars(m) + (['"'] + Transform(u))))
  {
    NextMatchAt(p, m, u);
  }

  /** Applying the transformation twice gives the same result as once. */
  lemma {:induction false} TransformIdempotent(s: string)
    ensures Transform(Transform(s)) == Transform(s)
    decreases |s|
  {
    var r := NextMatch(s);
    if r.Match? {
      var p, m, u := r.before, r.inner, r.after;
      var m' := StripStars(m);
      NextMatchSplit(s);
      StripStarsNoQuote(m);
      TransformStep(p, m', Transform(u));
      StripStarsIdempotent(m);
      TransformIdempotent(u);
    }
  }

  /** The transformed value of a JavaScript value is stable under another
      application. */
  lemma RemoveAsterisksFromQuotesIdempotent(v: JsValue)
    ensures RemoveAsterisksFromQuotes(RemoveAsterisksFromQuotes(v)) == RemoveAsterisksFromQuotes(v)
  {
    if IsNonEmptyString(v) {
      TransformIdempotent(v.chars);
    }
  }
}
