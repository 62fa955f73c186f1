/** `compare_key_words`: the keyword table shown next to the score, one row per
    vocabulary term with its resume count, job count and their difference,
    keeping the terms the job repeats, most frequent first, at most twenty. */
module Keywords {
  import opened Chars
  import opened Seqs
  import opened Vectorize

  /** A row of `skills_df`. */
  datatype Row = Row(word: string, resumeCount: int, jobCount: int, difference: int)

  const MaxRows := 20

  /** The row written for vocabulary position `i` (init/helpers.py:153-161). */
  function RowAt(vocab: seq<string>, jobBow: seq<nat>, resumeBow: seq<nat>, i: nat): (r: Row)
    requires i < |vocab| <= |jobBow| && |vocab| <= |resumeBow|
    ensures r.word == Capitalize(vocab[i]) && r.jobCount == jobBow[i] && r.resumeCount == resumeBow[i]
    ensures r.difference == r.resumeCount - r.jobCount
  {
    Row(Capitalize(vocab[i]), resumeBow[i], jobBow[i], resumeBow[i] as int - jobBow[i] as int)
  }

  /** The rows of `skills_df` after the loop has visited the first `n` terms. */
  function RowsUpTo(vocab: seq<string>, skills: seq<string>, jobBow: seq<nat>, resumeBow: seq<nat>, n: nat): (rows: seq<Row>)
    requires n <= |vocab| <= |jobBow| && |vocab| <= |resumeBow|
    ensures |rows| == |Filter(vocab[..n], w => w in skills)|
  {
    if n == 0 then []
    else
      assert vocab[..n] == vocab[..n - 1] + [vocab[n - 1]];
      FilterSnoc(vocab[..n - 1], vocab[n - 1], w => w in skills);
      var row := if vocab[n - 1] in skills then [RowAt(vocab, jobBow, resumeBow, n - 1)] else [];
      RowsUpTo(vocab, skills, jobBow, resumeBow, n - 1) + row
  }

  /** Every row is the capitalised term of some vocabulary position that is a
      skill, with that position's counts and their difference. */
  lemma {:induction false} RowsUpToAreSkillRows(vocab: seq<string>, skills: seq<string>, jobBow: seq<nat>, resumeBow: seq<nat>, n: nat)
    requires n <= |vocab| <= |jobBow| && |vocab| <= |resumeBow|
    ensures forall r :: r in RowsUpTo(vocab, skills, jobBow, resumeBow, n) ==>
      exists k :: 0 <= k < n && vocab[k] in skills && r == RowAt(vocab, jobBow, resumeBow, k)
    decreases n
  {
    if n > 0 {
      RowsUpToAreSkillRows(vocab, skills, jobBow, resumeBow, n - 1);
    }
  }

  /** The loop writes a row for every skill term it has visited. */
  lemma {:induction false} RowsUpToContains(vocab: seq<string>, skills: seq<string>, jobBow: seq<nat>, resumeBow: seq<nat>, n: nat, k: nat)
    requires n <= |vocab| <= |jobBow| && |vocab| <= |resumeBow|
    requires k < n && vocab[k] in skills
    ensures RowAt(vocab, jobBow, resumeBow, k) in RowsUpTo(vocab, skills, jobBow, resumeBow, n)
    decreases n
  {
    if k < n - 1 {
      RowsUpToContains(vocab, skills, jobBow, resumeBow, n - 1, k);
    }
  }

  /** `skills_df['job_posting_count'] > 1`. */
  predicate Repeated(r: Row)
  {
    r.jobCount > 1
  }

  /** The rows the table is chosen from: those whose job count exceeds one. */
  function Candidates(vocab: seq<string>, skills: seq<string>, jobBow: seq<nat>, resumeBow: seq<nat>): (r: seq<Row>)
    requires |vocab| <= |jobBow| && |vocab| <= |resumeBow|
    ensures |r| <= |vocab|
    ensures forall k :: 0 <= k < |r| ==> r[k].jobCount > 1
  {
    Filter(RowsUpTo(vocab, skills, jobBow, resumeBow, |vocab|), Repeated)
  }

  /** Each candidate is a skill term of the vocabulary, capitalised, that the job
      uses more than once, with its two counts and their difference. */
  lemma CandidatesAreRepeatedSkills(vocab: seq<string>, skills: seq<string>, jobBow: seq<nat>, resumeBow: seq<nat>)
    requires |vocab| <= |jobBow| && |vocab| <= |resumeBow|
    ensures forall r :: r in Candidates(vocab, skills, jobBow, resumeBow) ==>
      exists k :: 0 <= k < |vocab| && vocab[k] in skills && jobBow[k] > 1
        && r == Row(Capitalize(vocab[k]), resumeBow[k], jobBow[k], resumeBow[k] as int - jobBow[k] as int)
  {
    var rows := RowsUpTo(vocab, skills, jobBow, resumeBow, |vocab|);
    RowsUpToAreSkillRows(vocab, skills, jobBow, resumeBow, |vocab|);
    FilterMembership(rows, Repeated);
  }

  predicate ByJobCountDescending(rows: seq<Row>)
  {
    forall i, j :: 0 <= i < j < |rows| ==> rows[i].jobCount >= rows[j].jobCount
  }

  /** Place `r` after every row whose job count is at least its own. */
  function InsertByJobCount(sorted: seq<Row>, r: Row): (out: seq<Row>)
    requires ByJobCountDescending(sorted)
    ensures ByJobCountDescending(out)
    ensures multiset(out) == multiset(sorted) + multiset{r}
  {
    if sorted == [] then [r]
    else if sorted[0].jobCount >= r.jobCount then
      var rest := InsertByJobCount(sorted[1..], r);
      assert sorted == [sorted[0]] + sorted[1..];
      BoundedRows(rest, sorted[1..], r, sorted[0].jobCount);
      ConsDescending(sorted[0], rest);
      [sorted[0]] + rest
    else
      ConsDescending(r, sorted);
      [r] + sorted
  }

  /** Rows made of bounded rows are bounded. */
  lemma BoundedRows(rows: seq<Row>, others: seq<Row>, r: Row, m: int)
    requires multiset(rows) == multiset(others) + multiset{r}
    requires r.jobCount <= m && forall x :: x in others ==> x.jobCount <= m
    ensures forall x :: x in rows ==> x.jobCount <= m
  {
    forall x | x in rows ensures x.jobCount <= m {
      assert x in multiset(rows);
      assert x == r || x in multiset(others);
    }
  }

  /** A row no smaller than any of a descending list can go in front of it. */
  lemma ConsDescending(x: Row, rows: seq<Row>)
    requires ByJobCountDescending(rows)
    requires forall y :: y in rows ==> y.jobCount <= x.jobCount
    ensures ByJobCountDescending([x] + rows)
  {
    forall i, j | 0 <= i < j < |[x] + rows|
      ensures ([x] + rows)[i].jobCount >= ([x] + rows)[j].jobCount
    {
      assert rows[j - 1] in rows;
      if i > 0 {
        assert ([x] + rows)[i] == rows[i - 1];
      }
    }
  }

  /** `skills_df.sort_values(by='job_posting_count', ascending=False)`. */
  method SortByJobCount(rows: seq<Row>) returns (sorted: seq<Row>)
    ensures ByJobCountDescending(sorted)
    ensures multiset(sorted) == multiset(rows)
  {
    sorted := [];
    var i := 0;
    while i < |rows|
      invariant i <= |rows|
      invariant ByJobCountDescending(sorted)
      invariant multiset(sorted) == multiset(rows[..i])
    {
      sorted := InsertByJobCount(sorted, rows[i]);
      assert rows[..i + 1] == rows[..i] + [rows[i]];
      i := i + 1;
    }
    assert rows[..i] == rows;
  }

  /** Dropping rows keeps the order of the rest. */
  lemma FilterKeepsDescending(rows: seq<Row>, p: Row -> bool)
    requires ByJobCountDescending(rows)
    ensures ByJobCountDescending(Filter(rows, p))
  {
    var idx := Kept(rows, p);
  }

  /** `.head(20)`. */
  function Head(rows: seq<Row>): (r: seq<Row>)
    ensures |r| == (if |rows| < MaxRows then |rows| else MaxRows)
    ensures r == rows[..|r|]
  {
    if |rows| > MaxRows then rows[..MaxRows] else rows
  }

  /** `table` holds the rows of `candidates` with the largest job counts, at
      most twenty of them, largest first; any candidate left out has a job count
      no larger than any row kept. */
  ghost predicate IsTopByJobCount(table: seq<Row>, candidates: seq<Row>)
  {
    && |table| == (if |candidates| < MaxRows then |candidates| else MaxRows)
    && ByJobCountDescending(table)
    && multiset(table) <= multiset(candidates)
    && (forall r, t :: (r in multiset(candidates) - multiset(table) && t in table) ==> r.jobCount <= t.jobCount)
  }

  /** The head of rows already in descending order is their top. */
  lemma HeadIsTop(kept: seq<Row>)
    requires ByJobCountDescending(kept)
    ensures IsTopByJobCount(Head(kept), kept)
  {
    var table := Head(kept);
    var rest := kept[|table|..];
    assert kept == table + rest;
    assert multiset(kept) == multiset(table) + multiset(rest);
    forall r, t | r in multiset(kept) - multiset(table) && t in table
      ensures r.jobCount <= t.jobCount
    {
      assert r in rest;
    }
  }

  /** Being the top of a list depends only on its rows, not on their order. */
  lemma TopOfPermutation(table: seq<Row>, c1: seq<Row>, c2: seq<Row>)
    requires IsTopByJobCount(table, c1) && multiset(c1) == multiset(c2)
    ensures IsTopByJobCount(table, c2)
  {
    assert |c1| == |multiset(c1)| == |multiset(c2)| == |c2|;
  }

  /** Sorting, keeping the repeated rows and taking the head picks the top rows. */
  lemma SelectTop(rows: seq<Row>, sorted: seq<Row>)
    requires ByJobCountDescending(sorted) && multiset(sorted) == multiset(rows)
    ensures IsTopByJobCount(Head(Filter(sorted, Repeated)), Filter(rows, Repeated))
  {
    FilterKeepsDescending(sorted, Repeated);
    HeadIsTop(Filter(sorted, Repeated));
    FilterPermutation(sorted, rows, Repeated);
    TopOfPermutation(Head(Filter(sorted, Repeated)), Filter(sorted, Repeated), Filter(rows, Repeated));
  }

  /** Every row of the head is a repeated row taken from `rows`. */
  lemma SelectTopRows(rows: seq<Row>, sorted: seq<Row>)
    requires multiset(sorted) == multiset(rows)
    ensures forall r :: r in Head(Filter(sorted, Repeated)) ==> r in rows && r.jobCount > 1
  {
    FilterMembership(sorted, Repeated);
    forall r | r in Head(Filter(sorted, Repeated)) ensures r in rows {
      assert r in sorted;
      assert r in multiset(rows);
    }
  }

  lemma {:induction false} RowsUpToDifference(vocab: seq<string>, skills: seq<string>, jobBow: seq<nat>, resumeBow: seq<nat>, n: nat)
    requires n <= |vocab| <= |jobBow| && |vocab| <= |resumeBow|
    ensures forall r :: r in RowsUpTo(vocab, skills, jobBow, resumeBow, n) ==> r.difference == r.resumeCount - r.jobCount
  {
    RowsUpToAreSkillRows(vocab, skills, jobBow, resumeBow, n);
  }

  /** The table taken from the sorted rows has the promised properties. */
  lemma TableOfRows(vocab: seq<string>, skills: seq<string>, jobBow: seq<nat>, resumeBow: seq<nat>, rows: seq<Row>, sorted: seq<Row>)
    requires |vocab| <= |jobBow| && |vocab| <= |resumeBow|
    requires rows == RowsUpTo(vocab, skills, jobBow, resumeBow, |vocab|)
    requires ByJobCountDescending(sorted) && multiset(sorted) == multiset(rows)
    ensures |Head(Filter(sorted, Repeated))| <= MaxRows
    ensures forall r :: r in Head(Filter(sorted, Repeated)) ==> r.jobCount > 1 && r.difference == r.resumeCount - r.jobCount
    ensures ByJobCountDescending(Head(Filter(sorted, Repeated)))
    ensures IsTopByJobCount(Head(Filter(sorted, Repeated)), Candidates(vocab, skills, jobBow, resumeBow))
  {
    RowsUpToDifference(vocab, skills, jobBow, resumeBow, |vocab|);
    SelectTop(rows, sorted);
    SelectTopRows(rows, sorted);
  }

  /** The body of `compare_key_words` once the vocabulary is known: the loop
      over its terms, then the sort, the filter and the head. */
  method TableOver(vocab: seq<string>, skills: seq<string>, jobBow: seq<nat>, resumeBow: seq<nat>)
    returns (table: seq<Row>)
    requires |vocab| <= |jobBow| && |vocab| <= |resumeBow|
    ensures |table| <= MaxRows
    ensures forall r :: r in table ==> r.jobCount > 1 && r.difference == r.resumeCount - r.jobCount
    ensures ByJobCountDescending(table)
    ensures IsTopByJobCount(table, Candidates(vocab, skills, jobBow, resumeBow))
  {
    var rows: seq<Row> := [];
    var i := 0;
    while i < |vocab|
      invariant i <= |vocab|
      invariant rows == RowsUpTo(vocab, skills, jobBow, resumeBow, i)
    {
      if vocab[i] in skills {
        rows := rows + [RowAt(vocab, jobBow, resumeBow, i)];
      }
      i := i + 1;
    }
    var sorted := SortByJobCount(rows);
    var kept := Filter(sorted, Repeated);
    table := Head(kept);
    TableOfRows(vocab, skills, jobBow, resumeBow, rows, sorted);
  }

  /** `compare_key_words(job_text, skills, job_bow, resume_bow)`. The vocabulary
      is fitted again on `job_text`; the vectors are read at its positions. */
  method CompareKeyWords(jobText: seq<string>, skills: seq<string>, jobBow: seq<nat>, resumeBow: seq<nat>)
    returns (table: seq<Row>)
    requires |Vocabulary(jobText)| <= |jobBow| && |Vocabulary(jobText)| <= |resumeBow|
    ensures |table| <= MaxRows
    ensures forall r :: r in table ==> r.jobCount > 1 && r.difference == r.resumeCount - r.jobCount
    ensures ByJobCountDescending(table)
    ensures IsTopByJobCount(table, Candidates(Vocabulary(jobText), skills, jobBow, resumeBow))
  {
    var vocab := Vocabulary(jobText);
    table := TableOver(vocab, skills, jobBow, resumeBow);
  }
}
