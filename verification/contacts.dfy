/** The three contact finders: each returns the text of the first match of
    its pattern in the resume, or nothing. */
module Contacts {
  import opened Wrappers
  import opened Chars
  import opened Pattern

  /** `\b[A-Za-z0-9._%+-]+@[A-Za-z0-9.-]+\.<tld>{2,}\b`. */
  function EmailWith(tld: CharClass): Pattern
  {
    [WordBoundary, Rep(LocalPart, 1, None), Word("@", false), Rep(DomainPart, 1, None),
     Word(".", false), Rep(tld, 2, None), WordBoundary]
  }

  /** The email pattern as the source writes it: its top-level domain class
      `[A-Z|a-z]` also admits the character `|`. */
  const EmailAsWritten: Pattern := EmailWith(TldAsWritten)

  /** The email pattern with the top-level domain class `[A-Za-z]`. */
  const Email: Pattern := EmailWith(TldLetter)

  /** `\+?\d{0,2}\s?\(?\d{3}\)?[\s.-]?\d{3}[\s.-]?\d{4}`. */
  const Phone: Pattern :=
    [Rep(Lit('+'), 0, Some(1)), Rep(Digit, 0, Some(2)), Rep(Space, 0, Some(1)), Rep(Lit('('), 0, Some(1)),
     Rep(Digit, 3, Some(3)), Rep(Lit(')'), 0, Some(1)), Rep(Separator, 0, Some(1)),
     Rep(Digit, 3, Some(3)), Rep(Separator, 0, Some(1)), Rep(Digit, 4, Some(4))]

  /** `(?i)linkedin.com/<section>[/\w\d-]+`, one pattern per branch of the
      group `(?:in|profile)`, tried in that order. */
  function LinkedinWith(section: string): Pattern
  {
    [Word("linkedin", true), Rep(NotNewline, 1, Some(1)), Word("com/", true), Word(section, true),
     Rep(PathChar, 1, None)]
  }

  const Linkedin: seq<Pattern> := [LinkedinWith("in"), LinkedinWith("profile")]

  /** `r` is the text of `text` from position `s`. */
  predicate OccursAt(r: string, text: string, s: int)
  {
    0 <= s && s + |r| <= |text| && text[s..s + |r|] == r
  }

  /** No alternative fits anywhere in `text`. */
  ghost predicate NoMatch(alts: seq<Pattern>, text: string)
  {
    forall s: nat, i, ns :: s <= |text| && 0 <= i < |alts| ==> !Fits(alts[i], text, s, ns)
  }

  /** `r` is the text `re.search(alts[0] | alts[1] | ..., text).group()`
      returns: the text of the first match, in the sense of `FirstMatch`. */
  ghost predicate FirstText(alts: seq<Pattern>, text: string, r: string)
  {
    exists f :: FirstMatch(alts, text, f) && OccursAt(r, text, f.start) && |r| == Sum(f.counts)
  }

  /** The text a successful search covers is the text of the first match. */
  lemma SearchText(alts: seq<Pattern>, text: string, f: Found)
    requires Search(alts, text, 0) == Some(f)
    ensures f.alt < |alts| && Fits(alts[f.alt], text, f.start, f.counts)
    ensures FirstText(alts, text, Covered(text, f.start, alts[f.alt], f.counts))
  {
    SearchFound(alts, text, f);
  }

  /** The first match's text is determined: two texts that both are it are equal. */
  lemma FirstTextUnique(alts: seq<Pattern>, text: string, r1: string, r2: string)
    requires FirstText(alts, text, r1) && FirstText(alts, text, r2)
    ensures r1 == r2
  {
    var f :| FirstMatch(alts, text, f) && OccursAt(r1, text, f.start) && |r1| == Sum(f.counts);
    var g :| FirstMatch(alts, text, g) && OccursAt(r2, text, g.start) && |r2| == Sum(g.counts);
    FirstMatchUnique(alts, text, f, g);
  }

  lemma OccurrencesCut(text: string, a: nat, b: nat, c: nat, k: CharClass)
    requires a <= b <= c <= |text|
    ensures Occurrences(text[a..c], k) == Occurrences(text[a..b], k) + Occurrences(text[b..c], k)
  {
    Cut(text, a, b, c);
    OccurrencesAppend(text[a..b], text[b..c], k);
  }

  /** Counting over seven consecutive stretches. */
  lemma OccurrencesInSeven(text: string, b: seq<nat>, q: CharClass)
    requires |b| == 8 && b[0] <= b[1] <= b[2] <= b[3] <= b[4] <= b[5] <= b[6] <= b[7] <= |text|
    ensures Occurrences(text[b[0]..b[7]], q) ==
      Occurrences(text[b[0]..b[1]], q) + Occurrences(text[b[1]..b[2]], q) + Occurrences(text[b[2]..b[3]], q)
      + Occurrences(text[b[3]..b[4]], q) + Occurrences(text[b[4]..b[5]], q) + Occurrences(text[b[5]..b[6]], q)
      + Occurrences(text[b[6]..b[7]], q)
  {
    OccurrencesCut(text, b[0], b[1], b[7], q);
    OccurrencesCut(text, b[1], b[2], b[7], q);
    OccurrencesCut(text, b[2], b[3], b[7], q);
    OccurrencesCut(text, b[3], b[4], b[7], q);
    OccurrencesCut(text, b[4], b[5], b[7], q);
    OccurrencesCut(text, b[5], b[6], b[7], q);
  }

  /** Counting over ten consecutive stretches. */
  lemma OccurrencesInTen(text: string, b: seq<nat>, q: CharClass)
    requires |b| == 11
    requires b[0] <= b[1] <= b[2] <= b[3] <= b[4] <= b[5] <= b[6] <= b[7] <= b[8] <= b[9] <= b[10] <= |text|
    ensures Occurrences(text[b[0]..b[10]], q) ==
      Occurrences(text[b[0]..b[1]], q) + Occurrences(text[b[1]..b[2]], q) + Occurrences(text[b[2]..b[3]], q)
      + Occurrences(text[b[3]..b[4]], q) + Occurrences(text[b[4]..b[5]], q) + Occurrences(text[b[5]..b[6]], q)
      + Occurrences(text[b[6]..b[7]], q) + Occurrences(text[b[7]..b[8]], q) + Occurrences(text[b[8]..b[9]], q)
      + Occurrences(text[b[9]..b[10]], q)
  {
    OccurrencesCut(text, b[0], b[1], b[10], q);
    OccurrencesCut(text, b[1], b[2], b[10], q);
    OccurrencesCut(text, b[2], b[3], b[10], q);
    OccurrencesCut(text, b[3], b[4], b[10], q);
    OccurrencesCut(text, b[4], b[5], b[10], q);
    OccurrencesCut(text, b[5], b[6], b[10], q);
    OccurrencesCut(text, b[6], b[7], b[10], q);
    OccurrencesCut(text, b[7], b[8], b[10], q);
    OccurrencesCut(text, b[8], b[9], b[10], q);
  }

  /** An item whose class lies inside `q` takes only `q` characters. */
  lemma PieceInside(p: Pattern, text: string, pos: nat, ns: seq<nat>, i: nat, q: CharClass)
    requires Fits(p, text, pos, ns) && i < |p| && p[i].Rep?
    requires forall c :: In(p[i].k, c) ==> In(q, c)
    ensures Ascending(Starts(pos, ns), |text|)
    ensures Occurrences(text[Starts(pos, ns)[i]..Starts(pos, ns)[i + 1]], q) == ns[i]
  {
    StartsAscending(p, text, pos, ns);
    PieceAt(p, text, pos, ns, i);
    OccurrencesIn(text, Starts(pos, ns)[i], Starts(pos, ns)[i + 1], p[i].k, q);
  }

  /** An item whose class lies outside `q` takes no `q` character. */
  lemma PieceOutside(p: Pattern, text: string, pos: nat, ns: seq<nat>, i: nat, q: CharClass)
    requires Fits(p, text, pos, ns) && i < |p| && p[i].Rep?
    requires forall c :: In(p[i].k, c) ==> !In(q, c)
    ensures Ascending(Starts(pos, ns), |text|)
    ensures Occurrences(text[Starts(pos, ns)[i]..Starts(pos, ns)[i + 1]], q) == 0
  {
    StartsAscending(p, text, pos, ns);
    PieceAt(p, text, pos, ns, i);
    OccurrencesIn(text, Starts(pos, ns)[i], Starts(pos, ns)[i + 1], p[i].k, q);
  }

  /** None of the classes of the email pattern holds an `@`; none but the
      class as written holds a `|`. */
  lemma NotInEmailClasses(k: CharClass)
    requires k in {LocalPart, DomainPart, TldLetter, TldAsWritten}
    ensures forall c :: In(k, c) ==> !In(Lit('@'), c)
    ensures k != TldAsWritten ==> forall c :: In(k, c) ==> !In(Lit('|'), c)
  {
  }

  /** The fixed parts of an email match: nothing at the two boundaries, the
      `@` and the dot. */
  lemma EmailLiterals(tld: CharClass, text: string, s: nat, ns: seq<nat>)
    requires Fits(EmailWith(tld), text, s, ns)
    ensures Ascending(Starts(s, ns), |text|)
    ensures text[Starts(s, ns)[0]..Starts(s, ns)[1]] == []
    ensures text[Starts(s, ns)[2]..Starts(s, ns)[3]] == "@"
    ensures text[Starts(s, ns)[4]..Starts(s, ns)[5]] == "."
    ensures text[Starts(s, ns)[6]..Starts(s, ns)[7]] == []
  {
    var p := EmailWith(tld);
    StartsAscending(p, text, s, ns);
    PieceAt(p, text, s, ns, 0);
    PieceAt(p, text, s, ns, 2);
    PieceAt(p, text, s, ns, 4);
    PieceAt(p, text, s, ns, 6);
  }

  /** The repeated parts of an email match hold no `@`, and with the letter
      class no `|`. */
  lemma EmailRuns(tld: CharClass, text: string, s: nat, ns: seq<nat>, q: CharClass)
    requires tld == TldLetter || tld == TldAsWritten
    requires q == Lit('@') || (tld == TldLetter && q == Lit('|'))
    requires Fits(EmailWith(tld), text, s, ns)
    ensures Ascending(Starts(s, ns), |text|)
    ensures Occurrences(text[Starts(s, ns)[1]..Starts(s, ns)[2]], q) == 0
    ensures Occurrences(text[Starts(s, ns)[3]..Starts(s, ns)[4]], q) == 0
    ensures Occurrences(text[Starts(s, ns)[5]..Starts(s, ns)[6]], q) == 0
  {
    var p := EmailWith(tld);
    StartsAscending(p, text, s, ns);
    NotInEmailClasses(LocalPart);
    NotInEmailClasses(DomainPart);
    NotInEmailClasses(tld);
    PieceOutside(p, text, s, ns, 1, q);
    PieceOutside(p, text, s, ns, 3, q);
    PieceOutside(p, text, s, ns, 5, q);
  }

  /** What an email match covers: exactly one `@`; with the letter class, no
      `|` and a letter at the end. */
  lemma EmailShape(tld: CharClass, text: string, s: nat, ns: seq<nat>)
    requires tld == TldLetter || tld == TldAsWritten
    requires Fits(EmailWith(tld), text, s, ns)
    ensures OccursAt(Covered(text, s, EmailWith(tld), ns), text, s)
    ensures Occurrences(Covered(text, s, EmailWith(tld), ns), Lit('@')) == 1
    ensures tld == TldLetter ==>
      var r := Covered(text, s, EmailWith(tld), ns);
      Occurrences(r, Lit('|')) == 0 && |r| > 0 && IsLetter(r[|r| - 1])
  {
    var b := Starts(s, ns);
    StartsAscending(EmailWith(tld), text, s, ns);
    assert |ns| == 7 && b[7] == s + Sum(ns);
    EmailCount(tld, text, s, ns, Lit('@'));
    if tld == TldLetter {
      EmailCount(tld, text, s, ns, Lit('|'));
      EmailEnd(text, s, ns);
    }
  }

  lemma EmailCount(tld: CharClass, text: string, s: nat, ns: seq<nat>, q: CharClass)
    requires tld == TldLetter || tld == TldAsWritten
    requires q == Lit('@') || (tld == TldLetter && q == Lit('|'))
    requires Fits(EmailWith(tld), text, s, ns)
    ensures Ascending(Starts(s, ns), |text|)
    ensures Occurrences(text[Starts(s, ns)[0]..Starts(s, ns)[7]], q) == if q == Lit('@') then 1 else 0
  {
    EmailLiterals(tld, text, s, ns);
    EmailRuns(tld, text, s, ns, q);
    OccurrencesInSeven(text, Starts(s, ns), q);
  }

  /** With the letter class an email match ends with a letter. */
  lemma EmailEnd(text: string, s: nat, ns: seq<nat>)
    requires Fits(Email, text, s, ns)
    ensures Ascending(Starts(s, ns), |text|)
    ensures Starts(s, ns)[0] < Starts(s, ns)[7] && IsLetter(text[Starts(s, ns)[7] - 1])
  {
    StartsAscending(Email, text, s, ns);
    PieceAt(Email, text, s, ns, 5);
    PieceAt(Email, text, s, ns, 6);
  }

  /** None of the classes around the phone digits holds a digit. */
  lemma NoDigitIn(k: CharClass)
    requires k in {Lit('+'), Lit('('), Lit(')'), Space, Separator}
    ensures forall c :: In(k, c) ==> !In(Digit, c)
  {
  }

  /** The digit groups of a phone match. */
  lemma PhoneDigitGroups(text: string, s: nat, ns: seq<nat>)
    requires Fits(Phone, text, s, ns)
    ensures Ascending(Starts(s, ns), |text|)
    ensures Occurrences(text[Starts(s, ns)[1]..Starts(s, ns)[2]], Digit) <= 2
    ensures Occurrences(text[Starts(s, ns)[4]..Starts(s, ns)[5]], Digit) == 3
    ensures Occurrences(text[Starts(s, ns)[7]..Starts(s, ns)[8]], Digit) == 3
    ensures Occurrences(text[Starts(s, ns)[9]..Starts(s, ns)[10]], Digit) == 4
  {
    StartsAscending(Phone, text, s, ns);
    PieceAt(Phone, text, s, ns, 1);
    PieceInside(Phone, text, s, ns, 1, Digit);
    PieceAt(Phone, text, s, ns, 4);
    PieceInside(Phone, text, s, ns, 4, Digit);
    PieceAt(Phone, text, s, ns, 7);
    PieceInside(Phone, text, s, ns, 7, Digit);
    PieceAt(Phone, text, s, ns, 9);
    PieceInside(Phone, text, s, ns, 9, Digit);
  }

  /** The optional parts of a phone match hold no digit. */
  lemma PhoneOtherParts(text: string, s: nat, ns: seq<nat>)
    requires Fits(Phone, text, s, ns)
    ensures Ascending(Starts(s, ns), |text|)
    ensures Occurrences(text[Starts(s, ns)[0]..Starts(s, ns)[1]], Digit) == 0
    ensures Occurrences(text[Starts(s, ns)[2]..Starts(s, ns)[3]], Digit) == 0
    ensures Occurrences(text[Starts(s, ns)[3]..Starts(s, ns)[4]], Digit) == 0
    ensures Occurrences(text[Starts(s, ns)[5]..Starts(s, ns)[6]], Digit) == 0
    ensures Occurrences(text[Starts(s, ns)[6]..Starts(s, ns)[7]], Digit) == 0
    ensures Occurrences(text[Starts(s, ns)[8]..Starts(s, ns)[9]], Digit) == 0
  {
    StartsAscending(Phone, text, s, ns);
    NoDigitIn(Lit('+'));
    NoDigitIn(Lit('('));
    NoDigitIn(Lit(')'));
    NoDigitIn(Space);
    NoDigitIn(Separator);
    PieceOutside(Phone, text, s, ns, 0, Digit);
    PieceOutside(Phone, text, s, ns, 2, Digit);
    PieceOutside(Phone, text, s, ns, 3, Digit);
    PieceOutside(Phone, text, s, ns, 5, Digit);
    PieceOutside(Phone, text, s, ns, 6, Digit);
    PieceOutside(Phone, text, s, ns, 8, Digit);
  }

  /** A phone match holds between ten and twelve digits. */
  lemma PhoneDigits(text: string, s: nat, ns: seq<nat>)
    requires Fits(Phone, text, s, ns)
    ensures Ascending(Starts(s, ns), |text|)
    ensures 10 <= Occurrences(text[Starts(s, ns)[0]..Starts(s, ns)[10]], Digit) <= 12
  {
    var b := Starts(s, ns);
    PhoneDigitGroups(text, s, ns);
    PhoneOtherParts(text, s, ns);
    OccurrencesInTen(text, b, Digit);
  }

  /** What a phone match covers: between ten and twelve digits. */
  lemma PhoneShape(text: string, s: nat, ns: seq<nat>)
    requires Fits(Phone, text, s, ns)
    ensures OccursAt(Covered(text, s, Phone, ns), text, s)
    ensures 10 <= Occurrences(Covered(text, s, Phone, ns), Digit) <= 12
  {
    var b := Starts(s, ns);
    FitsWithin(Phone, text, s, ns);
    PhoneDigits(text, s, ns);
    assert |ns| == 10 && b[0] == s && b[10] == s + Sum(ns);
    assert Covered(text, s, Phone, ns) == text[b[0]..b[10]];
  }

  /** The shape of a LinkedIn match, section by section. */
  predicate LinkedinShaped(r: string, section: string)
  {
    && |r| > 13 + |section|
    && EqualsIgnoringCase(r[..8], "linkedin")
    && r[8] != '\n'
    && EqualsIgnoringCase(r[9..13], "com/")
    && EqualsIgnoringCase(r[13..13 + |section|], section)
    && AllIn(PathChar, r, 13 + |section|, |r|)
  }

  /** The parts of a LinkedIn match, one by one. */
  lemma LinkedinParts(section: string, text: string, s: nat, ns: seq<nat>)
    requires Fits(LinkedinWith(section), text, s, ns)
    ensures var b := Starts(s, ns);
      && Ascending(b, |text|)
      && b[1] == b[0] + 8 && b[2] == b[0] + 9 && b[3] == b[0] + 13 && b[4] == b[3] + |section| && b[4] < b[5]
      && EqualsIgnoringCase(text[b[0]..b[1]], "linkedin")
      && text[b[1]] != '\n'
      && EqualsIgnoringCase(text[b[2]..b[3]], "com/")
      && EqualsIgnoringCase(text[b[3]..b[4]], section)
      && AllIn(PathChar, text, b[4], b[5])
  {
    var p := LinkedinWith(section);
    StartsAscending(p, text, s, ns);
    PieceAt(p, text, s, ns, 0);
    PieceAt(p, text, s, ns, 1);
    PieceAt(p, text, s, ns, 2);
    PieceAt(p, text, s, ns, 3);
    PieceAt(p, text, s, ns, 4);
  }

  lemma LinkedinShape(section: string, text: string, s: nat, ns: seq<nat>)
    requires Fits(LinkedinWith(section), text, s, ns)
    ensures OccursAt(Covered(text, s, LinkedinWith(section), ns), text, s)
    ensures LinkedinShaped(Covered(text, s, LinkedinWith(section), ns), section)
  {
    var b := Starts(s, ns);
    LinkedinParts(section, text, s, ns);
    assert |ns| == 5 && b[5] == s + Sum(ns);
    var r := text[b[0]..b[5]];
    SubSlice(text, b[0], b[5], 0, 8);
    assert r[..8] == r[0..8];
    assert r[8] == text[b[1]];
    SubSlice(text, b[0], b[5], 9, 13);
    SubSlice(text, b[0], b[5], 13, 13 + |section|);
    forall i | 13 + |section| <= i < |r|
      ensures In(PathChar, r[i])
    {
      assert r[i] == text[b[0] + i];
    }
  }

  /** `re.search(pattern, text).group()`, or nothing. */
  function FindEmail(text: string): (r: Option<string>)
    ensures r.Some? ==>
      && (exists s :: OccursAt(r.value, text, s))
      && Occurrences(r.value, Lit('@')) == 1
      && Occurrences(r.value, Lit('|')) == 0
      && IsLetter(r.value[|r.value| - 1])
    ensures r.None? <==> NoMatch([Email], text)
    ensures r.Some? ==> FirstText([Email], text, r.value)
  {
    match Search([Email], text, 0)
    case None =>
      SearchNone([Email], text);
      None
    case Some(f) =>
      SearchText([Email], text, f);
      EmailShape(TldLetter, text, f.start, f.counts);
      Some(Covered(text, f.start, Email, f.counts))
  }

  /** The email finder with the pattern exactly as written. */
  function FindEmailAsWritten(text: string): (r: Option<string>)
    ensures r.Some? ==> (exists s :: OccursAt(r.value, text, s)) && Occurrences(r.value, Lit('@')) == 1
    ensures r.None? <==> NoMatch([EmailAsWritten], text)
    ensures r.Some? ==> FirstText([EmailAsWritten], text, r.value)
  {
    match Search([EmailAsWritten], text, 0)
    case None =>
      SearchNone([EmailAsWritten], text);
      None
    case Some(f) =>
      SearchText([EmailAsWritten], text, f);
      EmailShape(TldAsWritten, text, f.start, f.counts);
      Some(Covered(text, f.start, EmailAsWritten, f.counts))
  }

  function FindPhoneNumber(text: string): (r: Option<string>)
    ensures r.Some? ==> (exists s :: OccursAt(r.value, text, s)) && 10 <= Occurrences(r.value, Digit) <= 12
    ensures r.None? <==> NoMatch([Phone], text)
    ensures r.Some? ==> FirstText([Phone], text, r.value)
  {
    match Search([Phone], text, 0)
    case None =>
      SearchNone([Phone], text);
      None
    case Some(f) =>
      SearchText([Phone], text, f);
      PhoneShape(text, f.start, f.counts);
      Some(Covered(text, f.start, Phone, f.counts))
  }

  function FindLinkedin(text: string): (r: Option<string>)
    ensures r.Some? ==>
      && (exists s :: OccursAt(r.value, text, s))
      && (LinkedinShaped(r.value, "in") || LinkedinShaped(r.value, "profile"))
    ensures r.None? <==> NoMatch(Linkedin, text)
    ensures r.Some? ==> FirstText(Linkedin, text, r.value)
  {
    match Search(Linkedin, text, 0)
    case None =>
      SearchNone(Linkedin, text);
      None
    case Some(f) =>
      SearchText(Linkedin, text, f);
      LinkedinShape(if f.alt == 0 then "in" else "profile", text, f.start, f.counts);
      Some(Covered(text, f.start, Linkedin[f.alt], f.counts))
  }

  /** A resume line where the two email patterns part ways. */
  const PipeText: string := "a@b.co|1"

  /** The local part of any email fit at the start of `PipeText` is `a`. */
  lemma PipeLocal(tld: CharClass, c: seq<nat>)
    requires Fits(EmailWith(tld), PipeText, 0, c)
    ensures c[0] == 0 && c[1] == 1 && c[2] == 1
  {
    var p := EmailWith(tld);
    var t := PipeText;
    StartsAscending(p, t, 0, c);
    PieceAt(p, t, 0, c, 0);
    PieceAt(p, t, 0, c, 1);
    assert !In(LocalPart, t[1]);
    PieceAt(p, t, 0, c, 2);
  }

  /** The domain of any email fit at the start of `PipeText` is `b`. */
  lemma PipeDomain(tld: CharClass, c: seq<nat>)
    requires Fits(EmailWith(tld), PipeText, 0, c)
    requires c[0] == 0 && c[1] == 1 && c[2] == 1
    ensures c[3] == 1 && c[4] == 1
  {
    var p := EmailWith(tld);
    var t := PipeText;
    var b := Starts(0, c);
    StartsAscending(p, t, 0, c);
    PieceAt(p, t, 0, c, 3);
    assert !In(DomainPart, t[6]);
    PieceAt(p, t, 0, c, 4);
    TakesLiteral(t, b[4], c[4], '.');
    assert t[4] != '.' && t[5] != '.' && t[6] != '.';
  }

  /** The top-level domain of any email fit at the start of `PipeText` takes
      two letters, and with the class as written it may also take the `|`. */
  lemma PipeTld(tld: CharClass, c: seq<nat>)
    requires tld == TldLetter || tld == TldAsWritten
    requires Fits(EmailWith(tld), PipeText, 0, c)
    requires c[0] == 0 && c[1] == 1 && c[2] == 1 && c[3] == 1 && c[4] == 1
    ensures c[6] == 0
    ensures 2 <= c[5] <= if tld == TldLetter then 2 else 3
  {
    var p := EmailWith(tld);
    var t := PipeText;
    StartsAscending(p, t, 0, c);
    PieceAt(p, t, 0, c, 5);
    assert !In(TldLetter, t[6]) && !In(TldAsWritten, t[7]);
    PieceAt(p, t, 0, c, 6);
  }

  /** The length vector each pattern is able to take at the start of
      `PipeText`. */
  lemma PipeFitsAt(tld: CharClass, v: seq<nat>)
    requires tld == TldLetter || tld == TldAsWritten
    requires v == [0, 1, 1, 1, 1, if tld == TldLetter then 2 else 3, 0]
    ensures Fits(EmailWith(tld), PipeText, 0, v)
  {
    var p := EmailWith(tld);
    var t := PipeText;
    assert Fits(p[7..], t, 4 + v[5], v[7..]);
    assert Fits(p[6..], t, 4 + v[5], v[6..]);
    assert Fits(p[5..], t, 4, v[5..]);
    assert Fits(p[4..], t, 3, v[4..]);
    assert Fits(p[3..], t, 2, v[3..]);
    assert Fits(p[2..], t, 1, v[2..]);
    assert Fits(p[1..], t, 0, v[1..]);
  }

  /** The length vector each pattern settles on at the start of `PipeText`. */
  lemma PipeMatch(tld: CharClass, v: seq<nat>)
    requires tld == TldLetter || tld == TldAsWritten
    requires v == [0, 1, 1, 1, 1, if tld == TldLetter then 2 else 3, 0]
    ensures Match(EmailWith(tld), PipeText, 0) == Some(v)
  {
    PipeFitsAt(tld, v);
    forall c | Fits(EmailWith(tld), PipeText, 0, c)
      ensures PinnedBy(c, v, 5)
    {
      PipeLocal(tld, c);
      PipeDomain(tld, c);
      PipeTld(tld, c);
    }
    MatchPinned(EmailWith(tld), PipeText, 0, v, 5);
  }

  /** As written, the email finder takes the `|` and the word character after
      it into the match. */
  lemma PipeAsWritten()
    ensures FindEmailAsWritten(PipeText) == Some("a@b.co|")
  {
    var v := [0, 1, 1, 1, 1, 3, 0];
    PipeMatch(TldAsWritten, v);
    assert Search([EmailAsWritten], PipeText, 0) == Some(Found(0, 0, v));
    assert Sum(v) == 7;
    assert PipeText[0..7] == "a@b.co|";
  }

  /** With the letter class the match stops before the `|`. */
  lemma PipeCorrected()
    ensures FindEmail(PipeText) == Some("a@b.co")
  {
    var v := [0, 1, 1, 1, 1, 2, 0];
    PipeMatch(TldLetter, v);
    assert Search([Email], PipeText, 0) == Some(Found(0, 0, v));
    assert Sum(v) == 6;
    assert PipeText[0..6] == "a@b.co";
  }

  /** An ordinary address at the start of a sentence. */
  const AddressText: string := "a.b@example.com today"

  /** The characters of `AddressText` that decide where each item stops. */
  predicate AddressShaped(t: string)
  {
    && |t| > 15
    && t[1] != '@' && t[2] != '@' && t[3] == '@'
    && t[11] == '.' && (forall k :: 4 <= k < 15 && k != 11 ==> t[k] != '.')
    && IsWordChar(t[13]) && IsWordChar(t[14]) && t[15] == ' '
  }

  lemma AddressIsShaped()
    ensures AddressShaped(AddressText)
  {
    var t := AddressText;
    assert forall k :: 4 <= k < 15 && k != 11 ==> t[k] != '.';
  }

  /** The local part of any email fit at the start of such a text is `a.b`:
      the `@` stops it and the literal needs an `@` after it. */
  lemma AddressLocal(tld: CharClass, t: string, c: seq<nat>)
    requires AddressShaped(t)
    requires Fits(EmailWith(tld), t, 0, c)
    ensures c[0] == 0 && c[1] == 3 && c[2] == 1
  {
    var p := EmailWith(tld);
    var b := Starts(0, c);
    StartsAscending(p, t, 0, c);
    PieceAt(p, t, 0, c, 0);
    PieceAt(p, t, 0, c, 1);
    assert !In(LocalPart, t[3]);
    PieceAt(p, t, 0, c, 2);
    TakesLiteral(t, b[2], c[2], '@');
  }

  /** The domain is `example`: the only dot before the space is at 11. */
  lemma AddressDomain(tld: CharClass, t: string, c: seq<nat>)
    requires AddressShaped(t)
    requires Fits(EmailWith(tld), t, 0, c)
    requires c[0] == 0 && c[1] == 3 && c[2] == 1
    ensures c[3] == 7 && c[4] == 1
  {
    var p := EmailWith(tld);
    var b := Starts(0, c);
    StartsAscending(p, t, 0, c);
    PieceAt(p, t, 0, c, 3);
    assert !In(DomainPart, t[15]);
    PieceAt(p, t, 0, c, 4);
    TakesLiteral(t, b[4], c[4], '.');
  }

  /** The top-level domain is `com`: the space stops it, and `\b` rules out
      stopping inside the word. */
  lemma AddressTld(tld: CharClass, t: string, c: seq<nat>)
    requires tld == TldLetter || tld == TldAsWritten
    requires AddressShaped(t)
    requires Fits(EmailWith(tld), t, 0, c)
    requires c[0] == 0 && c[1] == 3 && c[2] == 1 && c[3] == 7 && c[4] == 1
    ensures c[5] == 3 && c[6] == 0
  {
    var p := EmailWith(tld);
    StartsAscending(p, t, 0, c);
    PieceAt(p, t, 0, c, 5);
    assert !In(tld, t[15]);
    PieceAt(p, t, 0, c, 6);
    assert !AtBoundary(t, 14);
  }

  /** From the domain on, the address fits the email pattern. */
  lemma AddressFitsDomain(tld: CharClass)
    requires tld == TldLetter || tld == TldAsWritten
    ensures Fits(EmailWith(tld)[3..], AddressText, 4, [7, 1, 3, 0])
  {
    var p := EmailWith(tld)[3..];
    var t := AddressText;
    var v: seq<nat> := [7, 1, 3, 0];
    assert AtBoundary(t, 15);
    assert AllIn(tld, t, 12, 15);
    SpelledAt(t, 11, ".");
    assert AllIn(DomainPart, t, 4, 11);
    assert Fits(p[4..], t, 15, v[4..]);
    assert Fits(p[3..], t, 15, v[3..]);
    assert Fits(p[2..], t, 12, v[2..]);
    assert Fits(p[1..], t, 11, v[1..]);
  }

  lemma AddressFitsAt(tld: CharClass)
    requires tld == TldLetter || tld == TldAsWritten
    ensures Fits(EmailWith(tld), AddressText, 0, [0, 3, 1, 7, 1, 3, 0])
  {
    var p := EmailWith(tld);
    var t := AddressText;
    var v: seq<nat> := [0, 3, 1, 7, 1, 3, 0];
    AddressFitsDomain(tld);
    assert p[3..] == EmailWith(tld)[3..] && v[3..] == [7, 1, 3, 0];
    SpelledAt(t, 3, "@");
    assert AllIn(LocalPart, t, 0, 3);
    assert AtBoundary(t, 0);
    assert Fits(p[2..], t, 3, v[2..]);
    assert Fits(p[1..], t, 0, v[1..]);
  }

  /** Both email patterns take the whole address and stop at the space. */
  lemma AddressMatch(tld: CharClass)
    requires tld == TldLetter || tld == TldAsWritten
    ensures Match(EmailWith(tld), AddressText, 0) == Some([0, 3, 1, 7, 1, 3, 0])
  {
    var v: seq<nat> := [0, 3, 1, 7, 1, 3, 0];
    AddressFitsAt(tld);
    AddressIsShaped();
    forall c | Fits(EmailWith(tld), AddressText, 0, c)
      ensures PinnedBy(c, v, 5)
    {
      AddressLocal(tld, AddressText, c);
      AddressDomain(tld, AddressText, c);
      AddressTld(tld, AddressText, c);
    }
    MatchPinned(EmailWith(tld), AddressText, 0, v, 5);
  }

  lemma AddressSearch(tld: CharClass)
    requires tld == TldLetter || tld == TldAsWritten
    ensures Search([EmailWith(tld)], AddressText, 0) == Some(Found(0, 0, [0, 3, 1, 7, 1, 3, 0]))
  {
    AddressMatch(tld);
    assert TryAt([EmailWith(tld)], AddressText, 0, 0) == Some(Found(0, 0, [0, 3, 1, 7, 1, 3, 0]));
  }

  lemma AddressSlice()
    ensures AddressText[0..15] == "a.b@example.com"
  {
    SpelledAt(AddressText, 0, "a.b@exa");
    SpelledAt(AddressText, 7, "mple.com");
    assert AddressText[0..15] == AddressText[0..7] + AddressText[7..15];
    assert "a.b@example.com" == "a.b@exa" + "mple.com";
  }

  /** On an ordinary address the email finder returns the address itself. */
  lemma AddressFound()
    ensures FindEmail(AddressText) == Some("a.b@example.com")
  {
    AddressSearch(TldLetter);
    assert Sum([0, 3, 1, 7, 1, 3, 0]) == 15;
    AddressSlice();
  }

  /** So does the finder with the pattern as written: no `|` is near. */
  lemma AddressFoundAsWritten()
    ensures FindEmailAsWritten(AddressText) == Some("a.b@example.com")
  {
    AddressSearch(TldAsWritten);
    assert Sum([0, 3, 1, 7, 1, 3, 0]) == 15;
    AddressSlice();
  }

  /** A profile link after a word. */
  const ProfileText: string := "see linkedin.com/in/jdoe-123 today"

  /** The text before the link does not start with `linkedin`, in any case. */
  lemma NoLinkedinAt(s: nat, n: nat)
    requires s < 4
    ensures !Takes(Word("linkedin", true), ProfileText, s, n)
  {
    if s + n <= |ProfileText| && n == 8 {
      assert ProfileText[s..s + 8][0] == ProfileText[s];
    }
  }

  /** Neither branch of the LinkedIn pattern fits before the link starts. */
  lemma ProfileNotBefore(s: nat, i: nat, c: seq<nat>)
    requires s < 4 && i < |Linkedin|
    ensures !Fits(Linkedin[i], ProfileText, s, c)
  {
    if Fits(Linkedin[i], ProfileText, s, c) {
      PieceAt(Linkedin[i], ProfileText, s, c, 0);
      NoLinkedinAt(s, c[0]);
    }
  }

  /** Any fit of the "in" branch at the link is pinned by the one that takes
      the whole path `/jdoe-123`. */
  lemma ProfilePath(c: seq<nat>)
    requires Fits(LinkedinWith("in"), ProfileText, 4, c)
    ensures PinnedBy(c, [8, 1, 4, 2, 9], 4)
  {
    var p := LinkedinWith("in");
    var t := ProfileText;
    StartsAscending(p, t, 4, c);
    PieceAt(p, t, 4, c, 0);
    PieceAt(p, t, 4, c, 1);
    PieceAt(p, t, 4, c, 2);
    PieceAt(p, t, 4, c, 3);
    PieceAt(p, t, 4, c, 4);
    assert !In(PathChar, t[28]);
  }

  lemma SpelledAt(t: string, a: nat, w: string)
    requires a + |w| <= |t| && forall k :: 0 <= k < |w| ==> t[a + k] == w[k]
    ensures t[a..a + |w|] == w
  {
  }

  /** A lower-case literal spells itself ignoring case. */
  lemma SpellsItself(w: string)
    ensures EqualsIgnoringCase(w, w)
  {
  }

  /** The literal items of the "in" branch, each where the link has it. */
  lemma ProfileLiterals()
    ensures Takes(Word("linkedin", true), ProfileText, 4, 8)
    ensures Takes(Word("com/", true), ProfileText, 13, 4)
    ensures Takes(Word("in", true), ProfileText, 17, 2)
  {
    SpelledAt(ProfileText, 4, "linkedin");
    SpellsItself("linkedin");
    SpelledAt(ProfileText, 13, "com/");
    SpellsItself("com/");
    SpelledAt(ProfileText, 17, "in");
    SpellsItself("in");
  }

  /** The repetitions of the "in" branch: the dot and the path. */
  lemma ProfileRuns()
    ensures Takes(Rep(NotNewline, 1, Some(1)), ProfileText, 12, 1)
    ensures Takes(Rep(PathChar, 1, None), ProfileText, 19, 9)
  {
    assert In(NotNewline, ProfileText[12]);
    assert AllIn(PathChar, ProfileText, 19, 28);
  }

  lemma ProfileFitsAt()
    ensures Fits(LinkedinWith("in"), ProfileText, 4, [8, 1, 4, 2, 9])
  {
    var p := LinkedinWith("in");
    var t := ProfileText;
    var v: seq<nat> := [8, 1, 4, 2, 9];
    ProfileLiterals();
    ProfileRuns();
    assert Fits(p[5..], t, 28, v[5..]);
    assert Fits(p[4..], t, 19, v[4..]);
    assert Fits(p[3..], t, 17, v[3..]);
    assert Fits(p[2..], t, 13, v[2..]);
    assert Fits(p[1..], t, 12, v[1..]);
  }

  lemma ProfileMatch()
    ensures Match(LinkedinWith("in"), ProfileText, 4) == Some([8, 1, 4, 2, 9])
  {
    var v: seq<nat> := [8, 1, 4, 2, 9];
    ProfileFitsAt();
    forall c | Fits(LinkedinWith("in"), ProfileText, 4, c)
      ensures PinnedBy(c, v, 4)
    {
      ProfilePath(c);
    }
    MatchPinned(LinkedinWith("in"), ProfileText, 4, v, 4);
  }

  /** The search moves past the four characters before the link. */
  lemma ProfileSkips(s: nat)
    requires s < 4
    ensures Search(Linkedin, ProfileText, s) == Search(Linkedin, ProfileText, s + 1)
  {
    forall i: nat, c | i < |Linkedin| ensures !Fits(Linkedin[i], ProfileText, s, c) {
      ProfileNotBefore(s, i, c);
    }
    assert Match(Linkedin[0], ProfileText, s).None?;
    assert Match(Linkedin[1], ProfileText, s).None?;
    assert TryAt(Linkedin, ProfileText, s, 2) == None;
    assert TryAt(Linkedin, ProfileText, s, 0) == None;
  }

  /** The LinkedIn finder returns the link, path included, and stops at the
      space. */
  lemma ProfileFound()
    ensures FindLinkedin(ProfileText) == Some("linkedin.com/in/jdoe-123")
  {
    var v: seq<nat> := [8, 1, 4, 2, 9];
    ProfileMatch();
    assert TryAt(Linkedin, ProfileText, 4, 0) == Some(Found(4, 0, v));
    ProfileSkips(0);
    ProfileSkips(1);
    ProfileSkips(2);
    ProfileSkips(3);
    assert Sum(v) == 24;
    ProfileSlice();
  }

  lemma ProfileSlice()
    ensures ProfileText[4..28] == "linkedin.com/in/jdoe-123"
  {
    var t := ProfileText;
    SpelledAt(t, 4, "linkedin");
    SpelledAt(t, 12, ".com/in/");
    SpelledAt(t, 20, "jdoe-123");
    assert t[4..20] == t[4..12] + t[12..20];
    assert t[4..28] == t[4..20] + t[20..28];
    assert "linkedin.com/in/jdoe-123" == "linkedin" + ".com/in/" + "jdoe-123";
  }

  /** A lone `@` is not what the search reports for `AddressText`, although it
      occurs there and has exactly one `@`. */
  lemma LoneAtIsNotFirst()
    ensures !FirstText([EmailAsWritten], AddressText, "@")
  {
    AddressFoundAsWritten();
    if FirstText([EmailAsWritten], AddressText, "@") {
      FirstTextUnique([EmailAsWritten], AddressText, "@", "a.b@example.com");
    }
  }

  /** A truncated profile is not what the search reports for `ProfileText`. */
  lemma TruncatedProfileIsNotFirst()
    ensures !FirstText(Linkedin, ProfileText, "linkedin.com/in/j")
  {
    ProfileFound();
    if FirstText(Linkedin, ProfileText, "linkedin.com/in/j") {
      FirstTextUnique(Linkedin, ProfileText, "linkedin.com/in/j", "linkedin.com/in/jdoe-123");
    }
  }
}
