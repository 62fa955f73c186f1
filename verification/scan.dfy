/** The scan behind the home page (`homepage()` in init/app.py): reject a short
    job description, look for contact details and the resume's length, extract
    the job's skill words, score the resume against them, choose a message and
    build the keyword table. */
module Scan {
  import opened Wrappers
  import opened Chars
  import opened Seqs
  import opened Words
  import opened Nltk
  import opened Normalize
  import opened Vectorize
  import opened Similarity
  import opened Keywords
  import opened Contacts

  /** Words never counted as skills, whatever their tag. */
  const ExcludedWords: seq<string> := [
    "experience", "new", "best", "years", "work", "skills", "proficient", "strong",
    "excellent", "ability", "knowledge", "responsibilities", "duties", "achievements",
    "accomplishments", "multitask", "fast-paced", "track", "record", "passion",
    "successful", "minimum", "degree", "job", "career", "salary", "pay", "including",
    "co", "preferred", "requires", "require", "required", "able", "role", "senior"]

  /** The Penn Treebank tags of nouns, verbs and adjectives. */
  const SkillTags: seq<string> := [
    "NN", "NNS", "NNPS", "NNP", "VBG", "VB", "VBD", "VBN", "VBP", "VBZ", "JJ", "JJR", "JJS"]

  /** WordNet's part-of-speech constants: `wordnet.VERB` and the lemmatizer's
      default, the noun. */
  const Verb := "v"
  const Noun := "n"

  /** A job needs more than this many words to be scanned. */
  const MinJobWords := 10

  /** The job tokens without the excluded words. */
  function DropExcluded(tokens: seq<string>): (r: seq<string>)
    ensures forall w :: w in r <==> w in tokens && w !in ExcludedWords
    ensures IsSubsequence(r, tokens)
    ensures |r| <= |tokens|
    ensures forall w :: multiset(r)[w] == if w in ExcludedWords then 0 else multiset(tokens)[w]
  {
    forall w ensures multiset(Filter(tokens, w => w !in ExcludedWords))[w] ==
      if w in ExcludedWords then 0 else multiset(tokens)[w]
    {
      FilterCount(tokens, w => w !in ExcludedWords, w);
    }
    FilterMembership(tokens, w => w !in ExcludedWords);
    FilterIsSubsequence(tokens, w => w !in ExcludedWords);
    Filter(tokens, w => w !in ExcludedWords)
  }

  /** The conditional of the lemmatizing comprehension: `wordnet.VERB` is a
      non-empty string, so the test always holds. */
  function Lemmatize(lex: Lexicon, token: string): (r: string)
    ensures r == lex.lemmatize(token, Verb)
  {
    if Verb != "" then lex.lemmatize(token, Verb) else lex.lemmatize(token, Noun)
  }

  /** Lemmatize every token; the result lines up with the input. */
  function LemmatizeAll(lex: Lexicon, tokens: seq<string>): (r: seq<string>)
    ensures |r| == |tokens|
    ensures forall i :: 0 <= i < |tokens| ==> r[i] == lex.lemmatize(tokens[i], Verb)
  {
    seq(|tokens|, i requires 0 <= i < |tokens| => Lemmatize(lex, tokens[i]))
  }

  /** A lemmatized job word is a skill when tagged on its own as a noun, verb or
      adjective and it is not an excluded word. */
  predicate IsSkill(lex: Lexicon, word: string)
  {
    lex.posTag(word) in SkillTags && word !in ExcludedWords
  }

  /** The skill words of the lemmatized job, in order, repeats included. */
  function Skills(lex: Lexicon, lemmatizedJob: seq<string>): (r: seq<string>)
    ensures |r| <= |lemmatizedJob|
    ensures forall i :: 0 <= i < |r| ==> IsSkill(lex, r[i])
  {
    Filter(lemmatizedJob, w => IsSkill(lex, w))
  }

  /** The skill words keep the job's order, are all skills, and each occurs as
      often as in the job: repeats are kept and nothing else is. */
  lemma SkillsProperties(lex: Lexicon, lemmatizedJob: seq<string>)
    ensures IsSubsequence(Skills(lex, lemmatizedJob), lemmatizedJob)
    ensures forall w :: w in Skills(lex, lemmatizedJob) ==>
      lex.posTag(w) in SkillTags && w !in ExcludedWords
    ensures forall w ::
      multiset(Skills(lex, lemmatizedJob))[w] == (if IsSkill(lex, w) then multiset(lemmatizedJob)[w] else 0)
  {
    FilterIsSubsequence(lemmatizedJob, w => IsSkill(lex, w));
    FilterMembership(lemmatizedJob, w => IsSkill(lex, w));
    forall w ensures multiset(Skills(lex, lemmatizedJob))[w] ==
      (if IsSkill(lex, w) then multiset(lemmatizedJob)[w] else 0)
    {
      FilterCount(lemmatizedJob, w => IsSkill(lex, w), w);
    }
  }

  /** The loop that appends each skill word of the lemmatized job to `skills`. */
  method ExtractSkills(lex: Lexicon, lemmatizedJob: seq<string>) returns (skills: seq<string>)
    ensures skills == Skills(lex, lemmatizedJob)
  {
    skills := [];
    var i := 0;
    while i < |lemmatizedJob|
      invariant i <= |lemmatizedJob|
      invariant skills == Skills(lex, lemmatizedJob[..i])
    {
      var word := lemmatizedJob[i];
      FilterSnoc(lemmatizedJob[..i], word, w => IsSkill(lex, w));
      assert lemmatizedJob[..i + 1] == lemmatizedJob[..i] + [word];
      if lex.posTag(word) in SkillTags && word !in ExcludedWords {
        skills := skills + [word];
      }
      i := i + 1;
    }
    assert lemmatizedJob[..i] == lemmatizedJob;
  }

  /** The job side of the pipeline: processed tokens, excluded words dropped,
      lemmatized, skill words kept. */
  function JobSkills(lex: Lexicon, job: string): (r: seq<string>)
    ensures |r| <= |ProcessText(lex, job)|
  {
    Skills(lex, LemmatizeAll(lex, DropExcluded(ProcessText(lex, job))))
  }

  /** The resume side: processed tokens, lemmatized. */
  function ResumeTokens(lex: Lexicon, resume: string): (r: seq<string>)
    ensures |r| == |ProcessText(lex, resume)|
    ensures forall i :: 0 <= i < |r| ==> r[i] == lex.lemmatize(ProcessText(lex, resume)[i], Verb)
  {
    LemmatizeAll(lex, ProcessText(lex, resume))
  }

  /** No excluded word survives into the skill words, each of which came from
      the processed job text. */
  lemma JobSkillsFromJob(lex: Lexicon, job: string)
    ensures forall w :: w in JobSkills(lex, job) ==>
      w !in ExcludedWords && lex.posTag(w) in SkillTags &&
      exists t :: t in ProcessText(lex, job) && t !in ExcludedWords && w == lex.lemmatize(t, Verb)
  {
    var kept := DropExcluded(ProcessText(lex, job));
    var lemmatized := LemmatizeAll(lex, kept);
    SkillsProperties(lex, lemmatized);
    forall w | w in JobSkills(lex, job)
      ensures exists t :: t in ProcessText(lex, job) && t !in ExcludedWords && w == lex.lemmatize(t, Verb)
    {
      var i :| 0 <= i < |lemmatized| && lemmatized[i] == w;
      assert kept[i] in kept;
    }
  }

  /** The result messages. */
  datatype Message =
    | LowWordCount
    | Excellent
    | WellSuited
    | AlmostCompatible
    | SomewhatCompatible
    | MayNotMeet

  function MessageText(m: Message): string
  {
    match m
    case LowWordCount => "Your resume word count is extremely low. We recommend revising your resume to increase the mention of key words as well as your skills and experience."
    case Excellent => "Fantastic! Your score indicates that your resume is an excellent match for the job requirements. We highly recommend applying for the job with confidence."
    case WellSuited => "Congratulations! Your score indicates that your resume is well-suited to the job requirements. We recommend applying for the job with confidence."
    case AlmostCompatible => "Your score indicates that your resume is almost compatible with the job requirements! Include the mention of frequent key words to reach a score of 65%."
    case SomewhatCompatible => "Your score indicates that your resume is somewhat compatible with the job requirements. Revise your resume to increase the mention of keywords and highlight your experience using measurable results."
    case MayNotMeet => "Your score indicates that your resume may not meet the requirements for this job. We suggest making changes to your resume to better match the job description."
  }

  /** How favourable a score message is, from 0 (worst) to 4 (best). */
  function Rank(m: Message): nat
  {
    match m
    case MayNotMeet => 0
    case SomewhatCompatible => 1
    case AlmostCompatible => 2
    case WellSuited => 3
    case Excellent => 4
    case LowWordCount => 0
  }

  /** The message of a score, by the bands 76 and up, 65 to 75, 60 to 64 and
      30 to 59, anything else getting the last. */
  function Band(score: int): (m: Message)
    ensures m != LowWordCount
    ensures m == Excellent <==> score >= 76
    ensures m == WellSuited <==> 65 <= score <= 75
    ensures m == AlmostCompatible <==> 60 <= score <= 64
    ensures m == SomewhatCompatible <==> 30 <= score <= 59
    ensures m == MayNotMeet <==> score < 30
  {
    if score >= 76 then Excellent
    else if score >= 65 && score <= 75 then WellSuited
    else if score >= 60 && score <= 64 then AlmostCompatible
    else if score >= 30 && score <= 59 then SomewhatCompatible
    else MayNotMeet
  }

  /** A higher score never gets a less favourable message, and the bands meet
      without gaps: raising a score by one moves it at most one band up. */
  lemma BandMonotonic(s: int, t: int)
    requires s <= t
    ensures Rank(Band(s)) <= Rank(Band(t))
    ensures t == s + 1 ==> Rank(Band(t)) <= Rank(Band(s)) + 1
  {
  }

  /** The final score and message. Below 25 resume words the score is forced to
      0; from 26 to 199 words the score stays and the message is the low-count
      one; at exactly 25 or from 200 words the score decides. */
  method ChooseMessage(wordCount: nat, score: nat) returns (finalScore: nat, message: Message)
    ensures wordCount < 25 ==> finalScore == 0 && message == LowWordCount
    ensures wordCount >= 25 ==> finalScore == score
    ensures 25 < wordCount < 200 ==> message == LowWordCount
    ensures wordCount == 25 || wordCount >= 200 ==> message == Band(score)
  {
    finalScore := score;
    if wordCount < 25 {
      finalScore := 0;
      message := LowWordCount;
    } else if 25 < wordCount < 200 {
      message := LowWordCount;
    } else if finalScore >= 76 {
      message := Excellent;
    } else if finalScore >= 65 && finalScore <= 75 {
      message := WellSuited;
    } else if finalScore >= 60 && finalScore <= 64 {
      message := AlmostCompatible;
    } else if finalScore >= 30 && finalScore <= 59 {
      message := SomewhatCompatible;
    } else {
      message := MayNotMeet;
    }
  }

  /** What the page shows after a successful scan. */
  datatype Report = Report(
    email: Option<string>,
    phone: Option<string>,
    linkedin: Option<string>,
    wordCount: nat,
    wordCountInRange: bool,
    skills: seq<string>,
    resumeTokens: seq<string>,
    bags: BagsOfWords,
    score: nat,
    message: Message,
    table: seq<Row>)

  datatype Outcome =
    | JobTooShort
    | NoKeyWords
    | Scored(report: Report)

  /** `450 <= word_count <= 750`. */
  predicate InRange(wordCount: nat)
  {
    450 <= wordCount <= 750
  }

  /** `row` is the table row of `term`: the term capitalised, its count among
      the skill words (more than one), its count among the resume's tokens, and
      their difference. */
  predicate Tallies(row: Row, term: string, skills: seq<string>, resumeTokens: seq<string>)
  {
    && row.word == Capitalize(term)
    && row.jobCount == multiset(skills)[term] > 1
    && row.resumeCount == multiset(resumeTokens)[term]
    && row.difference == row.resumeCount - row.jobCount
  }

  /** Every candidate row tallies a vocabulary term of the skill words: the
      positions the table reads line up with the vectors' positions. */
  lemma TableLinesUp(resumeTokens: seq<string>, skills: seq<string>, bags: BagsOfWords)
    requires CreateBow(resumeTokens, skills) == Success(bags)
    ensures forall r :: r in Candidates(Vocabulary(skills), skills, bags.job, bags.resume) ==>
      exists k :: 0 <= k < |Vocabulary(skills)| && Tallies(r, Vocabulary(skills)[k], skills, resumeTokens)
  {
    CandidatesAreRepeatedSkills(Vocabulary(skills), skills, bags.job, bags.resume);
  }

  /** Every row of a table chosen from the candidates tallies a vocabulary term. */
  lemma TableRows(resumeTokens: seq<string>, skills: seq<string>, bags: BagsOfWords, table: seq<Row>)
    requires CreateBow(resumeTokens, skills) == Success(bags)
    requires IsTopByJobCount(table, Candidates(Vocabulary(skills), skills, bags.job, bags.resume))
    ensures forall r :: r in table ==>
      exists k :: 0 <= k < |Vocabulary(skills)| && Tallies(r, Vocabulary(skills)[k], skills, resumeTokens)
  {
    var candidates := Candidates(Vocabulary(skills), skills, bags.job, bags.resume);
    TableLinesUp(resumeTokens, skills, bags);
    forall r | r in table ensures r in candidates {
      assert r in multiset(table);
    }
  }

  /** Every vocabulary term is one of the skill words, so each one the skill
      words repeat is a candidate for the table. */
  lemma RepeatedTermsAreCandidates(resumeTokens: seq<string>, skills: seq<string>, bags: BagsOfWords)
    requires CreateBow(resumeTokens, skills) == Success(bags)
    ensures forall k :: 0 <= k < |Vocabulary(skills)| && bags.job[k] > 1 ==>
      RowAt(Vocabulary(skills), bags.job, bags.resume, k) in Candidates(Vocabulary(skills), skills, bags.job, bags.resume)
  {
    forall k | 0 <= k < |Vocabulary(skills)| && bags.job[k] > 1
      ensures RowAt(Vocabulary(skills), bags.job, bags.resume, k) in Candidates(Vocabulary(skills), skills, bags.job, bags.resume)
    {
      RepeatedTermIsCandidate(skills, bags.job, bags.resume, k);
    }
  }

  lemma RepeatedTermIsCandidate(skills: seq<string>, jobBow: seq<nat>, resumeBow: seq<nat>, k: nat)
    requires k < |Vocabulary(skills)| <= |jobBow| && |Vocabulary(skills)| <= |resumeBow|
    requires jobBow[k] > 1
    ensures RowAt(Vocabulary(skills), jobBow, resumeBow, k) in Candidates(Vocabulary(skills), skills, jobBow, resumeBow)
  {
    var vocab := Vocabulary(skills);
    assert vocab[k] in vocab;
    RowsUpToContains(vocab, skills, jobBow, resumeBow, |vocab|, k);
    FilterMembership(RowsUpTo(vocab, skills, jobBow, resumeBow, |vocab|), Repeated);
  }

  /** The part of the scan after the vectors exist: the score, the message
      and the keyword table. */
  method Conclude(wordCount: nat, resumeTokens: seq<string>, skills: seq<string>, bags: BagsOfWords)
    returns (score: nat, message: Message, table: seq<Row>)
    requires CreateBow(resumeTokens, skills) == Success(bags)
    ensures score == (if wordCount < 25 then 0 else AtsScore(bags.job, bags.resume))
    ensures message == (if wordCount < 25 || 25 < wordCount < 200 then LowWordCount else Band(score))
    ensures |table| <= MaxRows
    ensures ByJobCountDescending(table)
    ensures IsTopByJobCount(table, Candidates(Vocabulary(skills), skills, bags.job, bags.resume))
  {
    var similarity := AtsScore(bags.job, bags.resume);
    score, message := ChooseMessage(wordCount, similarity);
    table := CompareKeyWords(skills, skills, bags.job, bags.resume);
  }

  /** The scan of `resume` against `job`. */
  method Scan(lex: Lexicon, resume: string, job: string) returns (out: Outcome)
    ensures out == JobTooShort <==> CountWords(job) <= MinJobWords
    ensures out == NoKeyWords <==>
      CountWords(job) > MinJobWords && Vocabulary(JobSkills(lex, job)) == []
    ensures out.Scored? ==>
      var r := out.report;
      && r.email == FindEmailAsWritten(resume)
      && r.phone == FindPhoneNumber(resume)
      && r.linkedin == FindLinkedin(resume)
      && r.wordCount == CountWords(resume)
      && (r.wordCountInRange <==> InRange(r.wordCount))
      && r.skills == JobSkills(lex, job)
      && r.resumeTokens == ResumeTokens(lex, resume)
      && CreateBow(r.resumeTokens, r.skills) == Success(r.bags)
      && r.score == (if r.wordCount < 25 then 0 else AtsScore(r.bags.job, r.bags.resume))
      && r.message == (if r.wordCount < 25 || 25 < r.wordCount < 200 then LowWordCount else Band(r.score))
      && |r.table| <= MaxRows
      && ByJobCountDescending(r.table)
      && IsTopByJobCount(r.table, Candidates(Vocabulary(r.skills), r.skills, r.bags.job, r.bags.resume))
  {
    if CountWords(job) <= MinJobWords {
      return JobTooShort;
    }
    var email := FindEmailAsWritten(resume);
    var phone := FindPhoneNumber(resume);
    var linkedin := FindLinkedin(resume);
    var wordCount := CountWords(resume);
    var wordCountInRange: bool;
    if 450 <= wordCount <= 750 {
      wordCountInRange := true;
    } else {
      wordCountInRange := false;
    }
    var jobProcessed := ProcessText(lex, job);
    var resumeProcessed := ProcessText(lex, resume);
    jobProcessed := DropExcluded(jobProcessed);
    var lemmatizedJob := LemmatizeAll(lex, jobProcessed);
    var lemmatizedResume := LemmatizeAll(lex, resumeProcessed);
    var skills := ExtractSkills(lex, lemmatizedJob);
    var bow := CreateBow(lemmatizedResume, skills);
    if bow.Failure? {
      return NoKeyWords;
    }
    var bags := bow.value;
    var finalScore, message, table := Conclude(wordCount, lemmatizedResume, skills, bags);
    out := Scored(Report(email, phone, linkedin, wordCount, wordCountInRange, skills,
                         lemmatizedResume, bags, finalScore, message, table));
  }
}
