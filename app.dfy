/** The skill-matching helper of the résumé scanner (`highlight_skills` in
    app.py): the job description's keywords, split into those the résumé
    text contains and those it does not. */
module App {
  import opened Strings
  import Parser

  /** What every keyword looks like: longer than two characters, free of
      whitespace and free of upper-case letters. */
  predicate IsKeyword(k: string) {
    |k| > 2 && NoSpace(k) && IsLower(k)
  }

  /** The keyword list comprehension over a list of tokens: each token longer
      than two characters, lower-cased, in order. */
  function KeywordsOf(tokens: seq<string>): (ks: seq<string>)
    requires forall t :: t in tokens ==> NoSpace(t)
    ensures |ks| <= |tokens|
    ensures forall k :: k in ks ==> IsKeyword(k)
    ensures forall k :: k in ks <==> exists t :: t in tokens && |t| > 2 && Lower(t) == k
  {
    if tokens == [] then []
    else
      assert tokens[0] in tokens;
      assert forall t :: t in tokens[1..] ==> t in tokens;
      LowerIsLower(tokens[0]);
      var rest := KeywordsOf(tokens[1..]);
      assert forall t :: t in tokens <==> t == tokens[0] || t in tokens[1..];
      if |tokens[0]| > 2 then [Lower(tokens[0])] + rest else rest
  }

  /** `jd_keywords`: the lower-cased whitespace tokens of the job description
      that are longer than two characters. */
  function JobKeywords(jdText: string): (ks: seq<string>)
    ensures |ks| <= |Words(jdText)|
    ensures forall k :: k in ks ==> IsKeyword(k)
    ensures forall k :: k in ks <==> exists w :: w in Words(jdText) && |w| > 2 && Lower(w) == k
  {
    KeywordsOf(Words(jdText))
  }

  /** `set(jd_keywords)`: the distinct keywords of the job description. */
  function KeywordSet(jdText: string): (keywords: set<string>)
    ensures forall k :: k in keywords ==> IsKeyword(k)
    ensures forall k :: k in keywords <==>
      exists w :: w in Words(jdText) && |w| > 2 && Lower(w) == k
  {
    set k | k in JobKeywords(jdText)
  }

  /** The keywords the résumé text contains, ignoring letter case. */
  function MatchedSet(resumeText: string, jdText: string): set<string> {
    set k | k in KeywordSet(jdText) && Contains(Lower(resumeText), k)
  }

  /** The keywords the résumé text does not contain, ignoring letter case. */
  function MissingSet(resumeText: string, jdText: string): set<string> {
    set k | k in KeywordSet(jdText) && !Contains(Lower(resumeText), k)
  }

  /** No element occurs twice. */
  predicate Distinct(s: seq<string>) {
    forall i, j :: 0 <= i < j < |s| ==> s[i] != s[j]
  }

  /** `highlight_skills(resume_text, jd_text)`: every distinct keyword of the
      job description lands in exactly one of the two lists, in `matched`
      exactly when the lower-cased résumé text contains it (`MatchedSet`) and
      in `missing` otherwise (`MissingSet`); neither list has duplicates. The order of the lists is that of Python's set iteration,
      which is left open here. */
  method HighlightSkills(resumeText: string, jdText: string) returns (matched: seq<string>, missing: seq<string>)
    ensures forall k :: k in matched <==> k in MatchedSet(resumeText, jdText)
    ensures forall k :: k in missing <==> k in MissingSet(resumeText, jdText)
    ensures forall k :: !(k in matched && k in missing)
    ensures Distinct(matched) && Distinct(missing)
    ensures |matched| + |missing| == |KeywordSet(jdText)|
  {
    var jdKeywords := JobKeywords(jdText);
    var keywords := set k | k in jdKeywords;
    assert keywords == KeywordSet(jdText);
    var lowered := Lower(resumeText);
    matched := [];
    missing := [];
    var todo := keywords;
    while todo != {}
      invariant todo <= keywords
      invariant forall k :: k in matched <==> k in keywords && k !in todo && Contains(lowered, k)
      invariant forall k :: k in missing <==> k in keywords && k !in todo && !Contains(lowered, k)
      invariant Distinct(matched) && Distinct(missing)
      invariant |matched| + |missing| + |todo| == |keywords|
      decreases todo
    {
      var keyword :| keyword in todo;
      assert keyword !in matched && keyword !in missing;
      if Contains(lowered, keyword) {
        matched := matched + [keyword];
      } else {
        missing := missing + [keyword];
      }
      todo := todo - {keyword};
    }
  }

  /** The number of distinct keywords is bounded by the number of tokens of
      the job description. */
  lemma KeywordCountBound(jdText: string)
    ensures |KeywordSet(jdText)| <= |Words(jdText)|
  {
    DistinctBound(JobKeywords(jdText));
  }

  lemma {:induction false} DistinctBound(s: seq<string>)
    ensures |set k | k in s| <= |s|
  {
    if s != [] {
      DistinctBound(s[1..]);
      assert (set k | k in s) == (set k | k in s[1..]) + {s[0]};
    }
  }

  /** The two sets split the keyword set: together they are all of it and
      no keyword is in both. */
  lemma Partition(resumeText: string, jdText: string)
    ensures MatchedSet(resumeText, jdText) + MissingSet(resumeText, jdText) == KeywordSet(jdText)
    ensures MatchedSet(resumeText, jdText) * MissingSet(resumeText, jdText) == {}
  {
  }

  /** Each keyword is a token of the job description turned to lower case, so
      it is already in lower case and holds no whitespace; punctuation is
      kept. The second ensures repeats what `KeywordSet` already promises,
      to name the token this lemma picks. */
  lemma KeywordsAreLowerTokens(jdText: string, k: string)
    requires k in KeywordSet(jdText)
    ensures Lower(k) == k
    ensures exists w :: w in Words(jdText) && |w| > 2 && Lower(w) == k
  {
    var w :| w in Words(jdText) && |w| > 2 && Lower(w) == k;
    LowerIsLower(w);
  }

  /** A job description that is empty or only whitespace has no keywords. */
  lemma BlankJobDescription(jdText: string)
    requires forall i :: 0 <= i < |jdText| ==> IsSpace(jdText[i])
    ensures KeywordSet(jdText) == {}
  {
    WordsOfBlank(jdText);
  }

  /** An empty résumé text matches nothing: every keyword is missing. */
  lemma EmptyResume(jdText: string)
    ensures MatchedSet("", jdText) == {}
    ensures MissingSet("", jdText) == KeywordSet(jdText)
  {
    forall k | k in KeywordSet(jdText) ensures !Contains(Lower(""), k) {
      assert |k| > 2;
    }
  }

  /** The outcome depends on the résumé only through its lower-cased text:
      changing the letter case of the résumé changes nothing. The requires
      admits real changes of case: `UpperSameUpToCase` shows that a résumé
      and its upper-cased copy satisfy it, and `UpperCaseResume` uses that. */
  lemma ResumeCaseIrrelevant(r1: string, r2: string, jdText: string)
    requires SameUpToCase(r1, r2)
    ensures MatchedSet(r1, jdText) == MatchedSet(r2, jdText)
    ensures MissingSet(r1, jdText) == MissingSet(r2, jdText)
  {
    LowerIgnoresCase(r1, r2);
  }

  /** Upper-casing the whole résumé leaves both sets as they were. */
  lemma UpperCaseResume(resumeText: string, jdText: string)
    ensures MatchedSet(Upper(resumeText), jdText) == MatchedSet(resumeText, jdText)
    ensures MissingSet(Upper(resumeText), jdText) == MissingSet(resumeText, jdText)
  {
    UpperSameUpToCase(resumeText);
    ResumeCaseIrrelevant(Upper(resumeText), resumeText, jdText);
  }

  /** A job description made of a single token has that token, lower-cased,
      as its only keyword when it is longer than two characters. */
  lemma SingleTokenKeyword(token: string)
    requires |token| > 2 && NoSpace(token)
    ensures KeywordSet(token) == {Lower(token)}
  {
    WordsOfWord(token, []);
    assert token + [] == token;
    assert JobKeywords(token) == [Lower(token)];
  }

  /** A keyword matches anywhere inside a longer word: "cat" is matched by a
      résumé saying "Catalog". */
  lemma SubstringMatch()
    ensures MatchedSet("Catalog", "cat") == {"cat"}
  {
    var low := Lower("Catalog");
    assert Lower("cat") == "cat" by {
      assert forall i :: 0 <= i < 3 ==> Lower("cat")[i] == "cat"[i];
    }
    assert Contains(low, "cat") by {
      assert low[0] == 'c' && low[1] == 'a' && low[2] == 't';
      assert OccursAt("cat", low, 0);
    }
    SingleTokenMatched("Catalog", "cat");
  }

  /** A single-token job description whose keyword the résumé contains has
      that keyword as its only match. */
  lemma SingleTokenMatched(resumeText: string, token: string)
    requires |token| > 2 && NoSpace(token)
    requires Contains(Lower(resumeText), Lower(token))
    ensures MatchedSet(resumeText, token) == {Lower(token)}
  {
    SingleTokenKeyword(token);
  }

  /** Punctuation stays part of the keyword: "Python," yields "python,". */
  lemma PunctuationKept()
    ensures KeywordSet("Python,") == {"python,"}
  {
    assert Lower("Python,") == "python," by {
      assert forall i :: 0 <= i < 7 ==> Lower("Python,")[i] == "python,"[i];
    }
    SingleTokenKeyword("Python,");
  }

  /** An upload whose name is neither ".pdf" nor ".docx" has empty text, so
      none of the job description's keywords are matched (app.py, lines 60
      and 66). */
  lemma UnsupportedUploadMissesAll<F>(readers: Parser.Readers<F>, file: F, filename: string, jdText: string)
    requires Parser.FormatOf(filename) == Parser.Unsupported
    ensures MatchedSet(Parser.ExtractResumeText(readers, file, filename), jdText) == {}
    ensures MissingSet(Parser.ExtractResumeText(readers, file, filename), jdText) == KeywordSet(jdText)
  {
    EmptyResume(jdText);
  }
}
