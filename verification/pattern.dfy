/** The fragment of Python's `re` that the three contact patterns use: a
    pattern is a sequence of greedy repetitions of a character class,
    literal words (optionally compared ignoring case) and word boundaries.
    `Fits` says which characters each item may take; `Match` is the
    backtracking matcher, which returns the greatest (in lexicographic order)
    vector of per-item lengths that fits, as a greedy backtracking engine does;
    `Search` tries the start positions from left to right. */
module Pattern {
  import opened Wrappers
  import opened Chars

  datatype CharClass =
    | Lit(c: char)   // one given character
    | Digit          // \d
    | Space          // \s
    | Separator      // [\s.-]
    | LocalPart      // [A-Za-z0-9._%+-]
    | DomainPart     // [A-Za-z0-9.-]
    | TldAsWritten   // [A-Z|a-z]
    | TldLetter      // [A-Za-z]
    | NotNewline     // .
    | PathChar       // [/\w\d-]

  predicate In(k: CharClass, c: char)
  {
    match k
    case Lit(d) => c == d
    case Digit => IsDigit(c)
    case Space => IsSpace(c)
    case Separator => IsSpace(c) || c == '.' || c == '-'
    case LocalPart => IsAlnum(c) || c == '.' || c == '_' || c == '%' || c == '+' || c == '-'
    case DomainPart => IsAlnum(c) || c == '.' || c == '-'
    case TldAsWritten => IsLetter(c) || c == '|'
    case TldLetter => IsLetter(c)
    case NotNewline => c != '\n'
    case PathChar => c == '/' || IsWordChar(c) || c == '-'
  }

  datatype Item =
    | Rep(k: CharClass, lo: nat, hi: Option<nat>)  // k{lo,hi}, greedy; hi None is unbounded
    | Word(w: string, ignoreCase: bool)            // a literal
    | WordBoundary                                 // \b

  type Pattern = seq<Item>

  /** Every character of `text[from..to]` is in `k`. */
  predicate AllIn(k: CharClass, text: string, from: int, to: int)
  {
    0 <= from <= to <= |text| && forall i :: from <= i < to ==> In(k, text[i])
  }

  predicate Spells(w: string, ignoreCase: bool, s: string)
  {
    if ignoreCase then EqualsIgnoringCase(s, w) else s == w
  }

  predicate IsWordAt(text: string, i: int)
  {
    0 <= i < |text| && IsWordChar(text[i])
  }

  /** `\b`: a word character on exactly one side of `pos`. */
  predicate AtBoundary(text: string, pos: int)
  {
    IsWordAt(text, pos - 1) != IsWordAt(text, pos)
  }

  /** The item may take the `n` characters of `text` starting at `pos`. */
  predicate Takes(item: Item, text: string, pos: nat, n: nat)
  {
    && pos + n <= |text|
    && match item
       case Rep(k, lo, hi) => lo <= n && (hi.None? || n <= hi.value) && AllIn(k, text, pos, pos + n)
       case Word(w, ignoreCase) => n == |w| && Spells(w, ignoreCase, text[pos..pos + n])
       case WordBoundary => n == 0 && AtBoundary(text, pos)
  }

  function Sum(ns: seq<nat>): nat
  {
    if ns == [] then 0 else ns[0] + Sum(ns[1..])
  }

  /** Item `i` of `p` takes `ns[i]` characters, one item after the other from `pos`. */
  predicate Fits(p: Pattern, text: string, pos: nat, ns: seq<nat>)
    decreases |p|
  {
    && |ns| == |p|
    && pos <= |text|
    && (|p| > 0 ==> Takes(p[0], text, pos, ns[0]) && Fits(p[1..], text, pos + ns[0], ns[1..]))
  }

  lemma {:induction false} FitsWithin(p: Pattern, text: string, pos: nat, ns: seq<nat>)
    requires Fits(p, text, pos, ns)
    ensures pos + Sum(ns) <= |text|
    decreases |p|
  {
    if |p| > 0 {
      FitsWithin(p[1..], text, pos + ns[0], ns[1..]);
    }
  }

  /** Lexicographic order on length vectors of the same length. */
  predicate LexLeq(a: seq<nat>, b: seq<nat>)
  {
    a == [] || b == [] || a[0] < b[0] || (a[0] == b[0] && LexLeq(a[1..], b[1..]))
  }

  lemma {:induction false} LexAntisymmetric(a: seq<nat>, b: seq<nat>)
    requires |a| == |b| && LexLeq(a, b) && LexLeq(b, a)
    ensures a == b
  {
    if a != [] {
      LexAntisymmetric(a[1..], b[1..]);
      assert a == [a[0]] + a[1..] && b == [b[0]] + b[1..];
    }
  }

  /** Two vectors in lexicographic order that agree before position `k`
      compare at `k`. */
  lemma {:induction false} LexLeqAt(a: seq<nat>, b: seq<nat>, k: nat)
    requires |a| == |b| && k < |a| && LexLeq(a, b)
    requires forall j :: 0 <= j < k ==> a[j] == b[j]
    ensures a[k] <= b[k]
    decreases k
  {
    if k > 0 {
      LexLeqAt(a[1..], b[1..], k - 1);
    }
  }

  /** A one-character literal takes exactly that character. */
  lemma TakesLiteral(text: string, pos: nat, n: nat, c: char)
    requires Takes(Word([c], false), text, pos, n)
    ensures n == 1 && pos < |text| && text[pos] == c
  {
    assert text[pos..pos + 1][0] == text[pos];
  }

  /** The longest run of `k` characters from `pos`, at most `hi` of them. */
  function RunLength(k: CharClass, text: string, pos: nat, hi: Option<nat>): (m: nat)
    requires pos <= |text|
    ensures pos + m <= |text| && AllIn(k, text, pos, pos + m)
    ensures hi.Some? ==> m <= hi.value
    ensures pos + m == |text| || (hi.Some? && m == hi.value) || !In(k, text[pos + m])
    decreases |text| - pos
  {
    if pos == |text| || (hi.Some? && hi.value == 0) || !In(k, text[pos]) then 0
    else
      var m := RunLength(k, text, pos + 1, if hi.Some? then Some(hi.value - 1) else None);
      1 + m
  }

  lemma RunLengthMaximal(k: CharClass, text: string, pos: nat, hi: Option<nat>, n: nat)
    requires pos + n <= |text| && AllIn(k, text, pos, pos + n) && (hi.None? || n <= hi.value)
    ensures n <= RunLength(k, text, pos, hi)
  {
  }

  function Extend(n: nat, r: Option<seq<nat>>): Option<seq<nat>>
  {
    if r.None? then None else Some([n] + r.value)
  }

  /** The backtracking matcher: `None` when no vector fits, otherwise the
      vector a greedy engine settles on. */
  function Match(p: Pattern, text: string, pos: nat): (r: Option<seq<nat>>)
    requires pos <= |text|
    ensures r.Some? ==> Fits(p, text, pos, r.value)
    decreases |p|, 1, 0
  {
    if p == [] then Some([])
    else match p[0]
      case Rep(k, lo, hi) =>
        var m := RunLength(k, text, pos, hi);
        if m < lo then None else Backtrack(p, text, pos, m)
      case Word(w, ignoreCase) =>
        if pos + |w| <= |text| && Spells(w, ignoreCase, text[pos..pos + |w|])
        then Extend(|w|, Match(p[1..], text, pos + |w|))
        else None
      case WordBoundary =>
        if AtBoundary(text, pos) then Extend(0, Match(p[1..], text, pos)) else None
  }

  /** The leading repetition takes `n` characters, then one fewer at a time
      down to its minimum, until the rest of the pattern matches. */
  function Backtrack(p: Pattern, text: string, pos: nat, n: nat): (r: Option<seq<nat>>)
    requires p != [] && p[0].Rep? && Takes(p[0], text, pos, n)
    ensures r.Some? ==> Fits(p, text, pos, r.value) && r.value[0] <= n
    decreases |p|, 0, n
  {
    var rest := Match(p[1..], text, pos + n);
    if rest.Some? then
      assert ([n] + rest.value)[1..] == rest.value;
      Some([n] + rest.value)
    else if n == p[0].lo then None
    else
      Backtrack(p, text, pos, n - 1)
  }

  /** The matcher finds a fit whenever one exists, and none it finds is
      smaller than any that fits. */
  lemma {:induction false} MatchGreatest(p: Pattern, text: string, pos: nat, ns: seq<nat>)
    requires Fits(p, text, pos, ns)
    ensures Match(p, text, pos).Some? && LexLeq(ns, Match(p, text, pos).value)
    decreases |p|, 2, 0
  {
    if p != [] {
      if p[0].Rep? {
        RunLengthMaximal(p[0].k, text, pos, p[0].hi, ns[0]);
        BacktrackGreatest(p, text, pos, RunLength(p[0].k, text, pos, p[0].hi), ns);
      } else {
        MatchGreatestFixed(p, text, pos, ns);
      }
    }
  }

  /** The same for a pattern that starts with a word or a boundary, which
      take a fixed number of characters. */
  lemma {:induction false} MatchGreatestFixed(p: Pattern, text: string, pos: nat, ns: seq<nat>)
    requires Fits(p, text, pos, ns) && p != [] && !p[0].Rep?
    ensures Match(p, text, pos).Some? && LexLeq(ns, Match(p, text, pos).value)
    decreases |p|, 1, 0
  {
    MatchGreatest(p[1..], text, pos + ns[0], ns[1..]);
    var rest := Match(p[1..], text, pos + ns[0]).value;
    assert Match(p, text, pos) == Some([ns[0]] + rest);
    assert ([ns[0]] + rest)[1..] == rest;
  }

  lemma {:induction false} BacktrackGreatest(p: Pattern, text: string, pos: nat, n: nat, ns: seq<nat>)
    requires p != [] && p[0].Rep? && Takes(p[0], text, pos, n)
    requires Fits(p, text, pos, ns) && ns[0] <= n
    ensures Backtrack(p, text, pos, n).Some? && LexLeq(ns, Backtrack(p, text, pos, n).value)
    decreases |p|, 1, n
  {
    if ns[0] == n {
      BacktrackGreatestHere(p, text, pos, ns);
    } else if Match(p[1..], text, pos + n).None? {
      BacktrackGreatest(p, text, pos, n - 1, ns);
    }
  }

  /** The case where the fitting vector takes as many characters as the
      backtracking step tries. */
  lemma {:induction false} BacktrackGreatestHere(p: Pattern, text: string, pos: nat, ns: seq<nat>)
    requires p != [] && p[0].Rep? && Fits(p, text, pos, ns)
    ensures Backtrack(p, text, pos, ns[0]).Some? && LexLeq(ns, Backtrack(p, text, pos, ns[0]).value)
    decreases |p|, 0, 0
  {
    var n := ns[0];
    MatchGreatest(p[1..], text, pos + n, ns[1..]);
    var rest := Match(p[1..], text, pos + n).value;
    var found := [n] + rest;
    assert Backtrack(p, text, pos, n) == Some(found);
    assert found[0] == ns[0] && found[1..] == rest;
    assert LexLeq(ns[1..], found[1..]);
  }

  /** `c` agrees with `v` everywhere but at `k`, where it is no larger. */
  predicate PinnedBy(c: seq<nat>, v: seq<nat>, k: nat)
  {
    && |c| == |v| && k < |v| && c[k] <= v[k]
    && forall j :: 0 <= j < |v| && j != k ==> c[j] == v[j]
  }

  /** When every fit is pinned by a fit `v`, the matcher returns `v`. */
  lemma MatchPinned(p: Pattern, text: string, pos: nat, v: seq<nat>, k: nat)
    requires Fits(p, text, pos, v) && k < |v|
    requires forall c :: Fits(p, text, pos, c) ==> PinnedBy(c, v, k)
    ensures Match(p, text, pos) == Some(v)
  {
    MatchGreatest(p, text, pos, v);
    var m := Match(p, text, pos).value;
    assert PinnedBy(m, v, k);
    LexLeqAt(v, m, k);
    assert forall j :: 0 <= j < |v| ==> m[j] == v[j];
    assert m == v;
  }

  /** `Match` finds nothing only when nothing fits (and, by its own
      contract, what it finds fits), and what it finds is the greatest
      fitting vector. */
  lemma MatchSpec(p: Pattern, text: string, pos: nat)
    requires pos <= |text|
    ensures Match(p, text, pos).None? ==> forall ns: seq<nat> :: !Fits(p, text, pos, ns)
    ensures Match(p, text, pos).Some? ==>
      forall ns: seq<nat> :: Fits(p, text, pos, ns) ==> LexLeq(ns, Match(p, text, pos).value)
  {
    forall ns: seq<nat> | Fits(p, text, pos, ns)
      ensures Match(p, text, pos).Some? && LexLeq(ns, Match(p, text, pos).value)
    {
      MatchGreatest(p, text, pos, ns);
    }
  }

  /** A match: where it starts, which alternative matched and the length each
      of that alternative's items took. */
  datatype Found = Found(start: nat, alt: nat, counts: seq<nat>)

  /** The first of the alternatives `alts[j..]` that matches at `pos`. */
  function TryAt(alts: seq<Pattern>, text: string, pos: nat, j: nat): (r: Option<Found>)
    requires pos <= |text| && j <= |alts|
    ensures r.Some? ==>
      && r.value.start == pos && j <= r.value.alt < |alts|
      && Match(alts[r.value.alt], text, pos) == Some(r.value.counts)
      && forall i :: j <= i < r.value.alt ==> Match(alts[i], text, pos).None?
    ensures r.None? ==> forall i :: j <= i < |alts| ==> Match(alts[i], text, pos).None?
    decreases |alts| - j
  {
    if j == |alts| then None
    else match Match(alts[j], text, pos)
      case Some(ns) => Some(Found(pos, j, ns))
      case None => TryAt(alts, text, pos, j + 1)
  }

  /** `re.search` with an alternation `alts[0] | alts[1] | ...`: the leftmost
      start at which some alternative matches, the first such alternative. */
  function Search(alts: seq<Pattern>, text: string, from: nat): (r: Option<Found>)
    requires from <= |text|
    ensures r.Some? ==>
      && from <= r.value.start <= |text| && r.value.alt < |alts|
      && Match(alts[r.value.alt], text, r.value.start) == Some(r.value.counts)
      && (forall i :: 0 <= i < r.value.alt ==> Match(alts[i], text, r.value.start).None?)
      && (forall s, i :: from <= s < r.value.start && 0 <= i < |alts| ==> Match(alts[i], text, s).None?)
    ensures r.None? ==>
      forall s, i :: from <= s <= |text| && 0 <= i < |alts| ==> Match(alts[i], text, s).None?
    decreases |text| - from
  {
    match TryAt(alts, text, from, 0)
    case Some(f) => Some(f)
    case None => if from == |text| then None else Search(alts, text, from + 1)
  }

  /** A search that finds nothing means no alternative fits anywhere. */
  lemma SearchNone(alts: seq<Pattern>, text: string)
    requires Search(alts, text, 0).None?
    ensures forall s: nat, i, ns :: s <= |text| && 0 <= i < |alts| ==> !Fits(alts[i], text, s, ns)
  {
    forall s: nat, i, ns | s <= |text| && 0 <= i < |alts|
      ensures !Fits(alts[i], text, s, ns)
    {
      if Fits(alts[i], text, s, ns) {
        MatchGreatest(alts[i], text, s, ns);
      }
    }
  }

  /** What a successful search leaves behind, stated on `Fits` alone: the
      match fits, no alternative fits at an earlier start, no earlier
      alternative fits at the same start, and the lengths are the greatest
      that fit. */
  lemma SearchFound(alts: seq<Pattern>, text: string, f: Found)
    requires Search(alts, text, 0) == Some(f)
    ensures Fits(alts[f.alt], text, f.start, f.counts)
    ensures forall s: nat, i, ns :: s < f.start && 0 <= i < |alts| ==> !Fits(alts[i], text, s, ns)
    ensures forall i, ns :: 0 <= i < f.alt ==> !Fits(alts[i], text, f.start, ns)
    ensures forall ns :: Fits(alts[f.alt], text, f.start, ns) ==> LexLeq(ns, f.counts)
    ensures FirstMatch(alts, text, f)
  {
    forall s: nat, i, ns | s <= f.start && 0 <= i < |alts| && Fits(alts[i], text, s, ns)
      ensures Match(alts[i], text, s).Some? && LexLeq(ns, Match(alts[i], text, s).value)
    {
      MatchGreatest(alts[i], text, s, ns);
    }
  }

  /** `f` is what `re.search` reports, stated on `Fits` alone: alternative
      `f.alt` fits at `f.start` with lengths `f.counts`, nothing fits at an
      earlier start, no earlier alternative fits at that start, and no
      fitting vector there is greater. */
  ghost predicate FirstMatch(alts: seq<Pattern>, text: string, f: Found)
  {
    && f.alt < |alts|
    && Fits(alts[f.alt], text, f.start, f.counts)
    && (forall s: nat, i, ns :: s < f.start && 0 <= i < |alts| ==> !Fits(alts[i], text, s, ns))
    && (forall i, ns :: 0 <= i < f.alt ==> !Fits(alts[i], text, f.start, ns))
    && (forall ns :: Fits(alts[f.alt], text, f.start, ns) ==> LexLeq(ns, f.counts))
  }

  /** There is at most one first match. */
  lemma FirstMatchUnique(alts: seq<Pattern>, text: string, f: Found, g: Found)
    requires FirstMatch(alts, text, f) && FirstMatch(alts, text, g)
    ensures f == g
  {
    if f.start == g.start && f.alt == g.alt {
      LexAntisymmetric(f.counts, g.counts);
    }
  }

  /** The text a fitting vector covers. */
  function Covered(text: string, pos: nat, p: Pattern, ns: seq<nat>): (s: string)
    requires Fits(p, text, pos, ns)
    ensures |s| == Sum(ns) && pos + |s| <= |text| && s == text[pos..pos + Sum(ns)]
  {
    FitsWithin(p, text, pos, ns);
    text[pos..pos + Sum(ns)]
  }

  /** Where each item starts when item `i` takes `ns[i]` characters. */
  function Starts(pos: nat, ns: seq<nat>): (b: seq<nat>)
    ensures |b| == |ns| + 1 && b[0] == pos && b[|ns|] == pos + Sum(ns)
    ensures forall i {:trigger ns[i]} :: 0 <= i < |ns| ==> b[i + 1] == b[i] + ns[i]
    decreases |ns|
  {
    if ns == [] then [pos] else [pos] + Starts(pos + ns[0], ns[1..])
  }

  /** The cut points never go back and stay within `bound`. */
  predicate Ascending(b: seq<nat>, bound: nat)
  {
    forall i, j :: 0 <= i <= j < |b| ==> b[i] <= b[j] <= bound
  }

  lemma {:induction false} StartsAscending(p: Pattern, text: string, pos: nat, ns: seq<nat>)
    requires Fits(p, text, pos, ns)
    ensures Ascending(Starts(pos, ns), |text|)
    decreases |p|
  {
    FitsWithin(p, text, pos, ns);
    if p != [] {
      StartsAscending(p[1..], text, pos + ns[0], ns[1..]);
      var b := Starts(pos, ns);
      forall i, j | 0 <= i <= j < |b|
        ensures b[i] <= b[j] <= |text|
      {
        if i > 0 {
          assert b[i] == Starts(pos + ns[0], ns[1..])[i - 1];
        }
        if j > 0 {
          assert b[j] == Starts(pos + ns[0], ns[1..])[j - 1];
        }
      }
    }
  }

  /** Item `i` of a fitting pattern takes the characters from `Starts(pos, ns)[i]`. */
  lemma {:induction false} PieceAt(p: Pattern, text: string, pos: nat, ns: seq<nat>, i: nat)
    requires Fits(p, text, pos, ns) && i < |p|
    ensures Takes(p[i], text, Starts(pos, ns)[i], ns[i])
    decreases i
  {
    if i > 0 {
      PieceAt(p[1..], text, pos + ns[0], ns[1..], i - 1);
      assert Starts(pos, ns)[i] == Starts(pos + ns[0], ns[1..])[i - 1];
    }
  }

  /** How many characters of `s` are in `k`. */
  function Occurrences(s: string, k: CharClass): (n: nat)
    ensures n <= |s|
  {
    if s == [] then 0 else (if In(k, s[0]) then 1 else 0) + Occurrences(s[1..], k)
  }

  lemma {:induction false} OccurrencesAppend(a: string, b: string, k: CharClass)
    ensures Occurrences(a + b, k) == Occurrences(a, k) + Occurrences(b, k)
  {
    if a != [] {
      OccurrencesAppend(a[1..], b, k);
      assert (a + b)[0] == a[0] && (a + b)[1..] == a[1..] + b;
    } else {
      assert a + b == b;
    }
  }

  /** A stretch of `k` characters, where every `k` character is in `q`, holds
      only `q` characters; where no `k` character is in `q`, none. */
  lemma {:induction false} OccurrencesIn(text: string, from: nat, to: nat, k: CharClass, q: CharClass)
    requires AllIn(k, text, from, to)
    ensures (forall c :: In(k, c) ==> In(q, c)) ==> Occurrences(text[from..to], q) == to - from
    ensures (forall c :: In(k, c) ==> !In(q, c)) ==> Occurrences(text[from..to], q) == 0
    decreases (to as int) - (from as int)
  {
    if from < to {
      OccurrencesIn(text, from + 1, to, k, q);
      assert text[from..to][1..] == text[from + 1..to];
    }
  }

  /** Cutting a slice in two. */
  lemma Cut(text: string, a: nat, b: nat, c: nat)
    requires a <= b <= c <= |text|
    ensures text[a..c] == text[a..b] + text[b..c]
  {
  }

  /** A piece of a piece of `text` is a piece of `text`. */
  lemma SubSlice(text: string, a: nat, c: nat, i: nat, j: nat)
    requires i <= j && a + j <= c <= |text|
    ensures text[a..c][i..j] == text[a + i..a + j]
  {
    assert forall k :: 0 <= k < j - i ==> text[a..c][i..j][k] == text[a + i + k];
  }

}
