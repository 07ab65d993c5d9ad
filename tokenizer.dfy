/**
 The two tokenizations of the Simplified Lesk disambiguator: Java's
 `String.split` with a regular expression of the form `[D]+`, where `D` is a
 fixed class of delimiter characters.

 `s.split("[D]+")` cuts `s` around every maximal run of delimiters and then
 drops the trailing empty pieces. Three cases follow from that:
 - an input without any delimiter is returned whole (so `""` gives `[""]`);
 - an input that starts with a delimiter yields a leading empty token `""`,
   unless nothing but delimiters follows, in which case every piece is
   empty and the result is `[]`;
 - otherwise the result is the sequence of maximal delimiter-free runs.
 */
module Tokenizer {

  /** Java's `\s`: space, tab, newline, vertical tab, form feed, carriage return. */
  const Whitespace: set<char> := {' ', '\t', '\n', '\U{000B}', '\U{000C}', '\r'}

  /** Delimiters of the context sentence: `[\s\.]+`. */
  const ContextDelimiters: set<char> := Whitespace + {'.'}

  /** Delimiters of a gloss: `[\(\)\;\"\?\!\.\s]+`. */
  const GlossDelimiters: set<char> := Whitespace + {'(', ')', ';', '"', '?', '!', '.'}

  /** No character of `w` is a delimiter. */
  predicate Free(w: string, delims: set<char>) {
    forall j :: 0 <= j < |w| ==> w[j] !in delims
  }

  /** Every character of `s` is a delimiter. */
  predicate AllDelimiters(s: string, delims: set<char>) {
    forall j :: 0 <= j < |s| ==> s[j] in delims
  }

  /** The maximal delimiter-free runs of `s`, in order. */
  function Runs(s: string, delims: set<char>): (r: seq<string>)
    ensures s != [] && s[0] !in delims ==> r != [] && r[0] != [] && r[0][0] == s[0]
    decreases |s|
  {
    if s == [] then []
    else if s[0] in delims then Runs(s[1..], delims)
    else
      var rest := Runs(s[1..], delims);
      if |s| > 1 && s[1] !in delims then [[s[0]] + rest[0]] + rest[1..]
      else [[s[0]]] + rest
  }

  /** Every run is non-empty and holds no delimiter. */
  lemma {:induction false} RunsAreWords(s: string, delims: set<char>)
    ensures forall k :: 0 <= k < |Runs(s, delims)| ==> Runs(s, delims)[k] != [] && Free(Runs(s, delims)[k], delims)
    decreases |s|
  {
    if s != [] {
      RunsAreWords(s[1..], delims);
      if s[0] !in delims {
        var rest := Runs(s[1..], delims);
        if |s| > 1 && s[1] !in delims {
          var w := [s[0]] + rest[0];
          assert Free(rest[0], delims);
          assert forall j :: 1 <= j < |w| ==> w[j] == rest[0][j - 1];
        }
      }
    }
  }

  /** A string has no runs exactly when it is made of delimiters only. */
  lemma {:induction false} RunsEmpty(s: string, delims: set<char>)
    ensures Runs(s, delims) == [] <==> AllDelimiters(s, delims)
    decreases |s|
  {
    if s != [] {
      RunsEmpty(s[1..], delims);
      if s[0] in delims {
        if AllDelimiters(s[1..], delims) {
          assert forall j :: 1 <= j < |s| ==> s[j] == s[1..][j - 1];
        } else {
          var j :| 0 <= j < |s[1..]| && s[1..][j] !in delims;
          assert s[j + 1] !in delims;
        }
      }
    }
  }

  /**
   `s.split("[D]+")` in Java, for the delimiter class `delims`. What Java's
   split promises here: no token holds a delimiter; every token but the first
   is non-empty; the first is the empty token exactly when the input is empty
   or starts with a delimiter and holds a non-delimiter; and nothing at all is
   returned exactly for a non-empty input made of delimiters only. That the
   tokens are the maximal runs between delimiters is SplitAt below.
   */
  function Split(s: string, delims: set<char>): (r: seq<string>)
    ensures forall k :: 0 <= k < |r| ==> Free(r[k], delims)
    ensures forall k :: 0 < k < |r| ==> r[k] != []
    ensures (|r| > 0 && r[0] == []) <==> (s == [] || (s[0] in delims && !AllDelimiters(s, delims)))
    ensures r == [] <==> s != [] && AllDelimiters(s, delims)
  {
    RunsAreWords(s, delims);
    RunsEmpty(s, delims);
    if s == [] then [s]
    else if s[0] in delims && Runs(s, delims) != [] then
      var r := [[]] + Runs(s, delims);
      assert forall k :: 0 < k < |r| ==> r[k] == Runs(s, delims)[k - 1];
      r
    else Runs(s, delims)
  }

  /** Tokens of the context sentence (`WordSenseDisambiguation.java:81`): split on whitespace and `.`. */
  function ContextTokens(sentence: string): (r: seq<string>)
    ensures forall k :: 0 <= k < |r| ==> Free(r[k], ContextDelimiters)
    ensures forall k :: 0 < k < |r| ==> r[k] != []
    ensures (|r| > 0 && r[0] == []) <==>
            (sentence == [] || (sentence[0] in ContextDelimiters && !AllDelimiters(sentence, ContextDelimiters)))
    ensures r == [] <==> sentence != [] && AllDelimiters(sentence, ContextDelimiters)
  {
    Split(sentence, ContextDelimiters)
  }

  /** Tokens of a gloss, its "signature" (`WordSenseDisambiguation.java:94`): split on whitespace and `();"?!.`. */
  function GlossTokens(gloss: string): (r: seq<string>)
    ensures forall k :: 0 <= k < |r| ==> Free(r[k], GlossDelimiters)
    ensures forall k :: 0 < k < |r| ==> r[k] != []
    ensures (|r| > 0 && r[0] == []) <==>
            (gloss == [] || (gloss[0] in GlossDelimiters && !AllDelimiters(gloss, GlossDelimiters)))
    ensures r == [] <==> gloss != [] && AllDelimiters(gloss, GlossDelimiters)
  {
    Split(gloss, GlossDelimiters)
  }

  /** The concatenation of a sequence of strings. */
  function Concat(ws: seq<string>): string {
    if ws == [] then [] else ws[0] + Concat(ws[1..])
  }

  /** `s` with every delimiter character removed. */
  function Kept(s: string, delims: set<char>): string {
    if s == [] then [] else (if s[0] in delims then [] else [s[0]]) + Kept(s[1..], delims)
  }

  lemma {:induction false} ConcatAppend(a: seq<string>, b: seq<string>)
    ensures Concat(a + b) == Concat(a) + Concat(b)
  {
    if a != [] {
      assert (a + b)[1..] == a[1..] + b;
      ConcatAppend(a[1..], b);
    } else {
      assert a + b == b;
    }
  }

  lemma {:induction false} KeptAppend(a: string, b: string, delims: set<char>)
    ensures Kept(a + b, delims) == Kept(a, delims) + Kept(b, delims)
  {
    if a != [] {
      assert (a + b)[1..] == a[1..] + b;
      KeptAppend(a[1..], b, delims);
    } else {
      assert a + b == b;
    }
  }

  /** The runs hold exactly the non-delimiter characters of `s`, in order. */
  lemma {:induction false} RunsKeepContent(s: string, delims: set<char>)
    ensures Concat(Runs(s, delims)) == Kept(s, delims)
    decreases |s|
  {
    if s != [] {
      RunsKeepContent(s[1..], delims);
      if s[0] !in delims {
        var rest := Runs(s[1..], delims);
        if |s| > 1 && s[1] !in delims {
          assert rest == [rest[0]] + rest[1..];
          ConcatAppend([rest[0]], rest[1..]);
          ConcatAppend([[s[0]] + rest[0]], rest[1..]);
        } else {
          ConcatAppend([[s[0]]], rest);
        }
      }
    }
  }

  /**
   Splitting loses nothing but delimiters: the tokens concatenated give back
   the input with its delimiter characters removed.
   */
  lemma SplitKeepsContent(s: string, delims: set<char>)
    ensures Concat(Split(s, delims)) == Kept(s, delims)
  {
    RunsKeepContent(s, delims);
    if s != [] && s[0] in delims && Runs(s, delims) != [] {
      ConcatAppend([[]], Runs(s, delims));
    }
  }

  /** A non-empty delimiter-free string is one run. */
  lemma {:induction false} RunsOfWord(w: string, delims: set<char>)
    requires w != [] && Free(w, delims)
    ensures Runs(w, delims) == [w]
    decreases |w|
  {
    assert w[0] !in delims;
    assert [w[0]] + w[1..] == w;
    if |w| > 1 {
      assert w[1] !in delims;
      RunsOfWord(w[1..], delims);
      assert Runs(w, delims) == [[w[0]] + w[1..]];
    } else {
      assert Runs(w[1..], delims) == [];
      assert Runs(w, delims) == [[w[0]]];
      assert w == [w[0]];
    }
  }

  /** Runs of a string in terms of the runs of its tail: the three branches of Runs. */
  lemma RunsCons(c: char, t: string, delims: set<char>)
    ensures c in delims ==> Runs([c] + t, delims) == Runs(t, delims)
    ensures c !in delims && t != [] && t[0] !in delims ==>
              Runs(t, delims) != [] &&
              Runs([c] + t, delims) == [[c] + Runs(t, delims)[0]] + Runs(t, delims)[1..]
    ensures c !in delims && (t == [] || t[0] in delims) ==> Runs([c] + t, delims) == [[c]] + Runs(t, delims)
  {
    assert ([c] + t)[0] == c && ([c] + t)[1..] == t;
  }

  /**
   A delimiter separates: the runs of `a + [d] + b` are the runs of `a`
   followed by the runs of `b`. Together with RunsOfWord and the fact that a
   string of delimiters has no runs, this determines Runs completely.
   */
  lemma {:induction false} RunsSplitAt(a: string, d: char, b: string, delims: set<char>)
    requires d in delims
    ensures Runs(a + [d] + b, delims) == Runs(a, delims) + Runs(b, delims)
    decreases |a|
  {
    if a == [] {
      assert a + [d] + b == [d] + b;
      RunsCons(d, b, delims);
    } else {
      var c, a' := a[0], a[1..];
      assert a == [c] + a';
      assert a + [d] + b == [c] + (a' + [d] + b);
      RunsSplitAt(a', d, b, delims);
      RunsCons(c, a', delims);
      RunsCons(c, a' + [d] + b, delims);
      var ra, rb := Runs(a', delims), Runs(b, delims);
      if c !in delims && a' != [] && a'[0] !in delims {
        assert (a' + [d] + b)[0] == a'[0];
        assert (ra + rb)[0] == ra[0] && (ra + rb)[1..] == ra[1..] + rb;
      } else if c !in delims {
        assert a' == [] ==> (a' + [d] + b)[0] == d;
        assert a' != [] ==> (a' + [d] + b)[0] == a'[0];
      }
    }
  }

  /**
   Split cuts at every delimiter: once a text `a` holds a word, whatever
   follows a delimiter after it contributes its own runs. With SplitWord and
   SplitLeadingRun below, this fixes the value of Split on every input.
   */
  lemma SplitAt(a: string, d: char, b: string, delims: set<char>)
    requires d in delims && !AllDelimiters(a, delims)
    ensures Split(a + [d] + b, delims) == Split(a, delims) + Runs(b, delims)
  {
    RunsSplitAt(a, d, b, delims);
    RunsEmpty(a, delims);
    assert (a + [d] + b)[0] == a[0];
  }

  /** A word followed only by delimiters is one token: the trailing empty pieces are dropped. */
  lemma SplitWord(w: string, tail: string, delims: set<char>)
    requires w != [] && Free(w, delims) && AllDelimiters(tail, delims)
    ensures Split(w + tail, delims) == [w]
  {
    RunsOfWord(w, delims);
    assert (w + tail)[0] == w[0];
    if tail == [] {
      assert w + tail == w;
    } else {
      assert w + tail == w + [tail[0]] + tail[1..];
      RunsSplitAt(w, tail[0], tail[1..], delims);
      RunsEmpty(tail[1..], delims);
    }
  }

  /**
   However many delimiters a text starts with, they give one empty token,
   followed by the runs of the rest, as long as the rest holds a word.
   */
  lemma SplitLeadingRun(lead: string, b: string, delims: set<char>)
    requires lead != [] && AllDelimiters(lead, delims) && !AllDelimiters(b, delims)
    ensures Split(lead + b, delims) == [""] + Runs(b, delims)
  {
    var n := |lead| - 1;
    var front := lead[..n];
    assert lead + b == front + [lead[n]] + b;
    RunsSplitAt(front, lead[n], b, delims);
    RunsEmpty(front, delims);
    RunsEmpty(b, delims);
    assert (lead + b)[0] == lead[0];
  }

  /**
   Java's leading empty token: a text made of one delimiter, one word and
   then only delimiters splits into the empty token and the word.
   */
  lemma SplitLeadingDelimiter(d: char, w: string, tail: string, delims: set<char>)
    requires d in delims && w != [] && Free(w, delims) && AllDelimiters(tail, delims)
    ensures Split([d] + w + tail, delims) == ["", w]
  {
    var s := [d] + w + tail;
    assert s == [] + [d] + (w + tail);
    RunsSplitAt([], d, w + tail, delims);
    RunsOfWord(w, delims);
    if tail == [] {
      assert w + tail == w;
    } else {
      assert w + tail == w + [tail[0]] + tail[1..];
      RunsSplitAt(w, tail[0], tail[1..], delims);
      RunsEmpty(tail[1..], delims);
    }
    assert Runs(s, delims) == [w];
  }

  lemma SplitExamples()
    ensures Split("a a b", Whitespace) == ["a", "a", "b"]
    ensures Split(" a", Whitespace) == ["", "a"]
    ensures Split("a ", Whitespace) == ["a"]
    ensures Split("  ", Whitespace) == []
    ensures Split("", Whitespace) == [""]
  {
  }
}
