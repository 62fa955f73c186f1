/** `create_bow`: scikit-learn's `CountVectorizer` fitted on the job's skill
    tokens, written out as a sorted vocabulary and two count vectors over it. */
module Vectorize {
  import opened Wrappers
  import opened Seqs

  /** Python's `<` on strings: code-point lexicographic order. */
  predicate Precedes(a: string, b: string)
    decreases |a|
  {
    if a == [] then b != []
    else b != [] && (a[0] < b[0] || (a[0] == b[0] && Precedes(a[1..], b[1..])))
  }

  lemma {:induction false} PrecedesIrreflexive(a: string)
    ensures !Precedes(a, a)
    decreases |a|
  {
    if a != [] { PrecedesIrreflexive(a[1..]); }
  }

  lemma {:induction false} PrecedesTransitive(a: string, b: string, c: string)
    requires Precedes(a, b) && Precedes(b, c)
    ensures Precedes(a, c)
    decreases |a|
  {
    if a != [] && a[0] == b[0] && b[0] == c[0] {
      PrecedesTransitive(a[1..], b[1..], c[1..]);
    }
  }

  lemma {:induction false} PrecedesTotal(a: string, b: string)
    requires a != b
    ensures Precedes(a, b) || Precedes(b, a)
    decreases |a|
  {
    if a != [] && b != [] && a[0] == b[0] {
      assert a[1..] != b[1..];
      PrecedesTotal(a[1..], b[1..]);
    }
  }

  /** Strictly increasing: sorted and free of duplicates. */
  predicate StrictlySorted(s: seq<string>)
  {
    forall i, j :: 0 <= i < j < |s| ==> Precedes(s[i], s[j])
  }

  /** Add `w` to a strictly sorted sequence at its place, unless it is there. */
  function Insert(s: seq<string>, w: string): (r: seq<string>)
    requires StrictlySorted(s)
    ensures StrictlySorted(r)
    ensures forall x :: x in r <==> x in s || x == w
  {
    if s == [] then [w]
    else if w == s[0] then s
    else if Precedes(w, s[0]) then
      forall j | 0 < j < |s| ensures Precedes(w, s[j]) { PrecedesTransitive(w, s[0], s[j]); }
      [w] + s
    else
      PrecedesTotal(w, s[0]);
      var r := Insert(s[1..], w);
      assert forall x :: x in r ==> Precedes(s[0], x);
      [s[0]] + r
  }

  /** `CountVectorizer`'s analyzer on `' '.join(tokens)`: its default pattern
      `\b\w\w+\b` keeps the tokens of two or more characters (the tokens it is
      given are already made of lower-case word characters). */
  function Analyze(tokens: seq<string>): (r: seq<string>)
    ensures forall w :: w in r <==> w in tokens && |w| >= 2
  {
    FilterMembership(tokens, w => |w| >= 2);
    Filter(tokens, w => |w| >= 2)
  }

  function SortedDistinct(tokens: seq<string>): (r: seq<string>)
    ensures StrictlySorted(r)
    ensures forall w :: w in r <==> w in tokens
    decreases |tokens|
  {
    if tokens == [] then []
    else Insert(SortedDistinct(tokens[..|tokens| - 1]), tokens[|tokens| - 1])
  }

  /** `vectorizer.fit([' '.join(tokens)]).get_feature_names_out()`: the distinct
      analyzed terms in sorted order. */
  function Vocabulary(tokens: seq<string>): (vocab: seq<string>)
    ensures StrictlySorted(vocab)
    ensures forall w :: w in vocab <==> w in tokens && |w| >= 2
  {
    SortedDistinct(Analyze(tokens))
  }

  /** One-letter tokens are dropped by the analyzer; longer ones keep their count. */
  lemma AnalyzeCount(tokens: seq<string>, w: string)
    requires |w| >= 2
    ensures multiset(Analyze(tokens))[w] == multiset(tokens)[w]
  {
    FilterCount(tokens, w => |w| >= 2, w);
  }

  /** `vectorizer.transform([' '.join(tokens)])`: for each vocabulary term, how
      often it occurs among the analyzed tokens. */
  function CountVector(vocab: seq<string>, tokens: seq<string>): (v: seq<nat>)
    requires forall i :: 0 <= i < |vocab| ==> |vocab[i]| >= 2
    ensures |v| == |vocab|
    ensures forall i :: 0 <= i < |vocab| ==> v[i] == multiset(tokens)[vocab[i]]
  {
    forall i | 0 <= i < |vocab|
      ensures multiset(Analyze(tokens))[vocab[i]] == multiset(tokens)[vocab[i]]
    {
      AnalyzeCount(tokens, vocab[i]);
    }
    seq(|vocab|, i requires 0 <= i < |vocab| => multiset(Analyze(tokens))[vocab[i]])
  }

  datatype BagsOfWords = BagsOfWords(job: seq<nat>, resume: seq<nat>)

  datatype VectorizeError = EmptyVocabulary

  /** `create_bow(resume_tokens, job_tokens)`: `fit` raises `ValueError` when the
      job tokens leave an empty vocabulary. */
  function CreateBow(resumeTokens: seq<string>, jobTokens: seq<string>): (r: Result<BagsOfWords, VectorizeError>)
    ensures r.Failure? <==> Vocabulary(jobTokens) == []
    ensures r.Failure? <==> forall w :: w in jobTokens ==> |w| < 2
    ensures r.Success? ==>
      && |r.value.job| == |r.value.resume| == |Vocabulary(jobTokens)| > 0
      && (forall i :: 0 <= i < |r.value.job| ==>
            r.value.job[i] == multiset(jobTokens)[Vocabulary(jobTokens)[i]] >= 1)
      && (forall i :: 0 <= i < |r.value.resume| ==>
            r.value.resume[i] == multiset(resumeTokens)[Vocabulary(jobTokens)[i]])
  {
    var vocab := Vocabulary(jobTokens);
    if vocab == [] then
      Failure(EmptyVocabulary)
    else
      assert vocab[0] in jobTokens;
      assert forall i :: 0 <= i < |vocab| ==> vocab[i] in multiset(jobTokens);
      Success(BagsOfWords(CountVector(vocab, jobTokens), CountVector(vocab, resumeTokens)))
  }

  /** A resume word outside the vocabulary contributes nothing to either vector. */
  lemma OutOfVocabularyIgnored(resumeTokens: seq<string>, jobTokens: seq<string>, extra: string)
    requires extra !in Vocabulary(jobTokens)
    ensures CreateBow(resumeTokens + [extra], jobTokens) == CreateBow(resumeTokens, jobTokens)
  {
    var vocab := Vocabulary(jobTokens);
    if vocab != [] {
      var a := CreateBow(resumeTokens + [extra], jobTokens).value;
      var b := CreateBow(resumeTokens, jobTokens).value;
      assert multiset(resumeTokens + [extra]) == multiset(resumeTokens) + multiset{extra};
      forall i | 0 <= i < |vocab| ensures a.resume[i] == b.resume[i] {
        assert vocab[i] != extra;
      }
      assert a.resume == b.resume;
    }
  }
}

module VectorizeExample {
  import opened Wrappers
  import opened Vectorize
  import opened Seqs

  /** Duplicated skill tokens are counted, and the vocabulary is sorted. */
  lemma ManageTeam()
    ensures CreateBow(["manage", "team", "team", "team"], ["manage", "manage", "team"])
         == Success(BagsOfWords([2, 1], [1, 3]))
  {
    var job := ["manage", "manage", "team"];
    var resume := ["manage", "team", "team", "team"];
    ManageTeamVocabulary();
    ManageTeamCounts(job, resume);
  }

  lemma ManageTeamCounts(job: seq<string>, resume: seq<string>)
    requires job == ["manage", "manage", "team"] && resume == ["manage", "team", "team", "team"]
    ensures CountVector(["manage", "team"], job) == [2, 1]
    ensures CountVector(["manage", "team"], resume) == [1, 3]
  {
    assert multiset(job)["manage"] == 2 && multiset(job)["team"] == 1;
    assert multiset(resume)["manage"] == 1 && multiset(resume)["team"] == 3;
  }

  lemma ManageTeamVocabulary()
    ensures Vocabulary(["manage", "manage", "team"]) == ["manage", "team"]
  {
    var job := ["manage", "manage", "team"];
    FilterAll(job, w => |w| >= 2);
    var m: seq<string> := ["manage"];
    assert m[..0] == [] && SortedDistinct(m) == m;
    assert job[..2][..1] == m && job[..2] == ["manage", "manage"];
    assert SortedDistinct(job[..2]) == m;
    assert !Precedes("team", "manage");
    assert Insert(m, "team") == ["manage", "team"];
  }
}
