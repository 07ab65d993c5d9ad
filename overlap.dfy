/**
 The overlap scorer of the Simplified Lesk disambiguator: the tokens shared by
 a sense's signature (its gloss tokens) and the context, once the stoplist
 has been taken out of the context. The size of the overlap is the sense's
 score.
 */
module Overlap {
  import opened Tokenizer

  /** The fixed stoplist (`STOPLIST`). Comparison is case-sensitive. */
  const Stoplist: set<string> := {"bank", "The", "can", "will", "because", "it", "in"}

  /** The distinct tokens of a token array (`new HashSet<>(Arrays.asList(a))`). */
  function Elements(tokens: seq<string>): set<string> {
    set t | t in tokens
  }

  /**
   `computeOverlap(signature, context)`: the context set minus the stoplist,
   restricted to the signature set.
   */
  function ComputeOverlap(signature: seq<string>, context: seq<string>): (r: set<string>)
    ensures r <= Elements(context) && r <= Elements(signature)
  {
    (Elements(context) - Stoplist) * Elements(signature)
  }

  /** A token is in the overlap exactly when both token arrays hold it and it is not a stopword. */
  lemma OverlapMembers(signature: seq<string>, context: seq<string>)
    ensures forall t :: t in ComputeOverlap(signature, context) <==> t in context && t in signature && t !in Stoplist
  {
  }

  /**
   The overlap is no larger than the number of distinct context tokens, nor
   than the number of distinct signature tokens.
   */
  lemma OverlapBound(signature: seq<string>, context: seq<string>)
    ensures |ComputeOverlap(signature, context)| <= |Elements(context)|
    ensures |ComputeOverlap(signature, context)| <= |Elements(signature)|
  {
    SubsetSize(ComputeOverlap(signature, context), Elements(context));
    SubsetSize(ComputeOverlap(signature, context), Elements(signature));
  }

  /** A subset is no larger than its superset. */
  lemma {:induction false} SubsetSize(a: set<string>, b: set<string>)
    requires a <= b
    ensures |a| <= |b|
    decreases |b|
  {
    if a != {} {
      var t :| t in a;
      SubsetSize(a - {t}, b - {t});
    }
  }

  /** A stoplist word never scores, even when both the gloss and the context contain it. */
  lemma StopwordNeverOverlaps(signature: seq<string>, context: seq<string>)
    ensures ComputeOverlap(signature, context) !! Stoplist
  {
  }

  /**
   The overlap depends only on which tokens occur: repeating a token of the
   signature or of the context, or reordering either of them, leaves it as it was.
   */
  lemma OverlapIgnoresRepetitionAndOrder(sig1: seq<string>, sig2: seq<string>, ctx1: seq<string>, ctx2: seq<string>)
    requires forall t :: t in sig1 <==> t in sig2
    requires forall t :: t in ctx1 <==> t in ctx2
    ensures ComputeOverlap(sig1, ctx1) == ComputeOverlap(sig2, ctx2)
  {
  }

  /** Reordering the signature's tokens, one case of the lemma above. */
  lemma OverlapIgnoresPermutation(sig1: seq<string>, sig2: seq<string>, context: seq<string>)
    requires multiset(sig1) == multiset(sig2)
    ensures ComputeOverlap(sig1, context) == ComputeOverlap(sig2, context)
  {
    forall t ensures t in sig1 <==> t in sig2 {
      assert t in sig1 <==> t in multiset(sig1);
      assert t in sig2 <==> t in multiset(sig2);
    }
    OverlapIgnoresRepetitionAndOrder(sig1, sig2, context, context);
  }

  /**
   Java's leading empty token reaches the score: a gloss and a sentence that
   both start with one of their delimiters (and hold a word) share the token
   `""`, which is not in the stoplist and so counts as an overlap.
   */
  lemma EmptyTokenOverlaps(gloss: string, sentence: string)
    requires gloss != [] && gloss[0] in GlossDelimiters && !AllDelimiters(gloss, GlossDelimiters)
    requires sentence != [] && sentence[0] in ContextDelimiters && !AllDelimiters(sentence, ContextDelimiters)
    ensures "" in ComputeOverlap(GlossTokens(gloss), ContextTokens(sentence))
  {
    var signature, context := GlossTokens(gloss), ContextTokens(sentence);
    assert |signature| > 0 && signature[0] == "";
    assert |context| > 0 && context[0] == "";
    assert "" !in Stoplist;
  }

  lemma GlossExample()
    ensures GlossTokens("(finance)") == ["", "finance"]
  {
    assert "(finance)" == ['('] + "finance" + ")";
    SplitLeadingDelimiter('(', "finance", ")", GlossDelimiters);
  }

  lemma ContextExample()
    ensures ContextTokens(" deposits") == ["", "deposits"]
  {
    assert " deposits" == [' '] + "deposits" + "";
    SplitLeadingDelimiter(' ', "deposits", "", ContextDelimiters);
  }

  /** Two signatures of the form ["", w] share only the empty token when their words differ. */
  lemma LeadingEmptyOnlyOverlap(w1: string, w2: string)
    requires w1 != w2 && w1 != [] && w2 != []
    ensures ComputeOverlap(["", w1], ["", w2]) == {""}
  {
    assert Elements(["", w1]) == {"", w1};
    assert Elements(["", w2]) == {"", w2};
    assert "" !in Stoplist;
  }

  /** An instance: the gloss `(finance)` scores one against the sentence ` deposits`. */
  lemma EmptyTokenExample()
    ensures ComputeOverlap(GlossTokens("(finance)"), ContextTokens(" deposits")) == {""}
  {
    GlossExample();
    ContextExample();
    LeadingEmptyOnlyOverlap("finance", "deposits");
  }
}
