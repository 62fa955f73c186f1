# Resume scanner: a verified model of the scan pipeline

The resume scanner compares a resume with a job description. It counts the
resume's words. It looks for an email address, a phone number and a LinkedIn
profile. It reduces both texts to dictionary words, keeps the job words that
tag as nouns, verbs or adjectives (the "skills"), and builds count vectors over
the job's sorted skill vocabulary. It scores the resume by the cosine
similarity of the two vectors as a whole percentage, picks a message from the
word count and the score, and shows a table of the skill terms the job repeats,
most frequent first, at most twenty.

This project models that pipeline in Dafny and proves what it promises:

- `Words`: `count_words` and its run-counting reference.
- `Normalize`: `process_text` and `is_english_word`, with the nltk resources
  as a `Lexicon` value.
- `Vectorize`: `create_bow`, with `CountVectorizer` written out as a sorted
  vocabulary and counts.
- `Similarity`: `calculate_ats`, whose result the caller rounds with Python's
  `round` (init/app.py:165).
- `Keywords`: `compare_key_words`, as a loop, a sort, a filter and a head.
- `Pattern` and `Contacts`: the three contact finders, over a small
  backtracking matcher with `re.search`'s leftmost-first, greedy semantics.
- `Scan`: the scan body of `homepage()`.

The cosine is never computed. An integer score `s` is specified by exact
integer inequalities: `s` is the nearest whole percentage to
100·d/√(‖r‖²‖j‖²), with a half going to the even neighbour.

Two details of the program shape the model:

- The caller rounds `calculate_ats`'s result with Python's `round`
  (init/app.py:165), which sends a half to the even neighbour, so
  `Similarity.NearestPercent` does the same
  (`Similarity.HalfRoundsToEven`: 12.5 becomes 12).
- The email pattern's class `[A-Z|a-z]` also admits `|`; see Findings.

## Model

| member | source | states |
|---|---|---|
| Words.TrimLeft | init/helpers.py:32 | `strip()` removes exactly the leading whitespace; what is left is a suffix starting with a non-space |
| Words.TrimRight | init/helpers.py:32 | `strip()` removes exactly the trailing whitespace; what is left is a prefix ending with a non-space |
| Words.Strip | init/helpers.py:32 | `strip()` is what `lstrip()` leaves with its trailing whitespace cut off: a prefix of it followed only by whitespace, empty or beginning and ending with a non-space |
| Words.Split | init/helpers.py:35 | every chunk of `split()` is non-empty, free of whitespace and a slice of the text |
| Words.SplitCountsRuns | init/helpers.py:35 | `split()` yields one chunk per maximal non-whitespace run |
| Words.CountWordsCountsRuns | init/helpers.py:29-37 | `count_words(t)` equals the number of maximal non-whitespace runs of `t` |
| Words.CountWords | init/helpers.py:29-37 | `len(text.strip().split())`; since words are separated by whitespace, twice the count is at most the length plus one |
| Words.CountWordsStripInvariant | init/helpers.py:31-37 | stripping the text first does not change the count |
| Words.CountWordsZero | init/helpers.py:29-37 | the count is 0 exactly for empty or all-whitespace text |
| Chars.Capitalize | init/helpers.py:161 | `capitalize()` keeps the length; the first character is its own upper-case form and every other character its own lower-case form, so letters stay letters and nothing else changes |
| Normalize.Scrub | init/helpers.py:95 | same length; a character is kept exactly when it is an ASCII letter, a digit or whitespace, and is otherwise replaced by a space |
| Normalize.HasDigit | init/helpers.py:101 | `re.search(r'\d', word)` succeeds exactly when some character of the word is a digit |
| Normalize.IsEnglishWord | init/helpers.py:41-45 | a word without WordNet senses is not English, and neither is one whose first sense is an adjective satellite `s` |
| Normalize.Cleaned | init/helpers.py:93-95 | same length as the input; each kept character (letter, digit or whitespace) is lower-cased and every other character becomes a space, so only lower-case letters, digits and whitespace remain |
| Normalize.ProcessText | init/helpers.py:91-105 | a word is in the output exactly when the tokenizer produced it, it is not a stop-word, has no digit and is an English word; such a word keeps every one of its occurrences and any other word has none |
| Normalize.ProcessTextFilters | init/helpers.py:41-45 | every output token is not a stop-word, has no digit character, and its first WordNet sense is `n`, `v`, `a` or `r` |
| Normalize.ProcessTextKeepsOrder | init/helpers.py:97-105 | the output is an order-preserving subsequence of the tokenizer's output |
| Normalize.ProcessTextLowercaseLetters | init/helpers.py:93-101 | with a tokenizer that only splits, every character of every output token is a lower-case ASCII letter |
| Vectorize.Analyze | init/helpers.py:116-117 | the vectorizer's analyzer keeps exactly the tokens of two or more characters |
| Vectorize.Vocabulary | init/helpers.py:116-117 | the vocabulary is strictly sorted and holds exactly the distinct job tokens of length at least two |
| Vectorize.CountVector | init/helpers.py:119-121 | one entry per vocabulary term: the number of occurrences of that term among the tokens |
| Vectorize.CreateBow | init/helpers.py:109-123 | fails exactly when the vocabulary is empty; otherwise two vectors of the vocabulary's length, job entries counting job tokens (each at least 1), resume entries counting resume tokens |
| Vectorize.OutOfVocabularyIgnored | init/helpers.py:119-120 | a resume word outside the vocabulary changes neither vector |
| VectorizeExample.ManageTeam | init/helpers.py:109-123 | on a small input the vocabulary is sorted and repeated tokens are counted |
| Similarity.CauchySchwarz | init/helpers.py:127-136 | dot² ≤ ‖r‖²·‖j‖², so the cosine is at most 1 |
| Similarity.AtsScore | init/helpers.py:127-136 | `calculate_ats` followed by the caller's `round` (init/app.py:165): the score is in [0,100]; it is 0 when either vector is all zero, and otherwise the nearest whole percentage to the cosine |
| Similarity.NearestPercentUnique | init/app.py:165 | rounding gives at most one percentage, ties included |
| Similarity.HalfRoundsToEven | init/app.py:165 | a cosine of exactly 12.5 percent scores 12 |
| Similarity.NoSharedTermScoresZero | init/helpers.py:127-136 | a resume sharing no term with the job scores 0 |
| Similarity.IdenticalScoresHundred | init/helpers.py:127-136 | a resume with the job's own counts scores 100 |
| Similarity.ScaleInvariant | init/helpers.py:127-136 | multiplying every resume count by the same positive factor leaves the score unchanged |
| Similarity.AtsScoreSymmetric | init/helpers.py:127-136 | swapping the job and resume vectors leaves the score unchanged |
| Similarity.ScaleJobInvariant | init/helpers.py:127-136 | multiplying every job count by the same positive factor leaves the score unchanged |
| Keywords.RowsUpToAreSkillRows | init/helpers.py:149-161 | every row the loop writes is a skill term's capitalised word with that position's counts and their difference |
| Keywords.RowAt | init/helpers.py:153-161 | the row for vocabulary position `i` holds the term capitalised, the resume and job counts at `i`, and the resume count minus the job count |
| Keywords.RowsUpTo | init/helpers.py:150-161 | after visiting the first `n` terms the loop has written exactly one row per visited term that is among the skills |
| Keywords.Repeated | init/helpers.py:165 | the filter keeps a row exactly when its job count is above 1 |
| Keywords.Candidates | init/helpers.py:149-165 | the rows the table is chosen from: at most one per vocabulary term, each with job count above 1 |
| Keywords.CandidatesAreRepeatedSkills | init/helpers.py:149-165 | every row left after the job-count filter is a skill term the job uses more than once |
| Keywords.InsertByJobCount | init/helpers.py:164 | inserting into a descending list keeps it descending and adds exactly the row |
| Keywords.SortByJobCount | init/helpers.py:164 | the sort yields the same rows in non-increasing job-count order |
| Keywords.FilterKeepsDescending | init/helpers.py:165 | dropping rows keeps the order of the rest |
| Keywords.HeadIsTop | init/helpers.py:166 | the head of a descending list is its top twenty |
| Keywords.Head | init/helpers.py:166 | `head(20)` is the prefix of the rows of length twenty, or all of them when there are fewer |
| Keywords.TopOfPermutation | init/helpers.py:164 | being the top rows depends only on which candidate rows there are, not on their order, so the order the sort leaves among ties does not matter |
| Keywords.SelectTop | init/helpers.py:164-166 | sorting, filtering and taking the head picks the top rows of the repeated candidates |
| Keywords.SelectTopRows | init/helpers.py:164-166 | every kept row comes from the loop's rows and has a job count above 1 |
| Keywords.RowsUpToDifference | init/helpers.py:157-161 | every row's difference is its resume count minus its job count |
| Keywords.TableOfRows | init/helpers.py:163-166 | the head of the filtered sorted rows has at most 20 rows, each repeated with its difference, descending, and is the top of the candidates |
| Keywords.TableOver | init/helpers.py:149-166 | the loop, sort, filter and head over a given vocabulary produce the top repeated candidates, at most 20, descending |
| Keywords.CompareKeyWords | init/helpers.py:140-168 | at most 20 rows, each with job count above 1 and difference = resume − job, in non-increasing job-count order, and they are the top repeated candidates |
| Pattern.RunLength | init/helpers.py:54 | a greedy repetition takes the longest run of its class up to its maximum |
| Pattern.Match | init/helpers.py:54 | a match found at a position fits the pattern there |
| Pattern.MatchGreatest | init/helpers.py:54 | if any length vector fits, the matcher returns a fit that is lexicographically largest (greedy with backtracking) |
| Pattern.MatchSpec | init/helpers.py:54 | no result means nothing fits; a result is at least every fit, lexicographically |
| Pattern.MatchPinned | init/helpers.py:54 | when every fit is bounded by a fit at one position, that fit is the match |
| Pattern.Search | init/helpers.py:54 | the leftmost start where an alternative matches, with the first such alternative |
| Pattern.SearchNone | init/helpers.py:54 | no result means no alternative fits at any position |
| Pattern.SearchFound | init/helpers.py:54 | a result fits, nothing fits further left, no earlier alternative fits at its start, and its lengths are the greedy ones |
| Pattern.FirstMatchUnique | init/helpers.py:54 | at most one match is the first: leftmost start, first alternative, greatest lengths determine it |
| Contacts.SearchText | init/helpers.py:54 | the text a successful search covers is the text of the first match |
| Contacts.FirstTextUnique | init/helpers.py:54 | the first match's text is unique, so the finders' results are determined by their contracts |
| Pattern.TryAt | init/helpers.py:80 | at one start the alternatives are tried in order: a result is the first whose match succeeds there, and no result means none of them matches there |
| Contacts.EmailShape | init/helpers.py:51 | an email match contains exactly one `@`; with the letter class it contains no `|` and ends with a letter |
| Contacts.FindEmail | init/helpers.py:49-61 | none exactly when nothing matches; otherwise the text of the first match (leftmost start, greedy lengths), with one `@`, no `\|`, ending in a letter |
| Contacts.FindEmailAsWritten | init/helpers.py:49-61 | none exactly when nothing matches; otherwise the text of the first match (leftmost start, greedy lengths), with exactly one `@` |
| Contacts.PhoneShape | init/helpers.py:67 | a phone match contains 10 to 12 digits |
| Contacts.FindPhoneNumber | init/helpers.py:65-74 | none exactly when nothing matches; otherwise the text of the first match (leftmost start, greedy lengths), with 10 to 12 digits |
| Contacts.LinkedinShape | init/helpers.py:80 | a LinkedIn match is "linkedin" in any case, one non-newline character, "com/", the section, then at least one path character |
| Contacts.FindLinkedin | init/helpers.py:78-87 | none exactly when neither branch matches; otherwise the text of the first match (leftmost start; the `in` branch wherever it fits there, else the `profile` branch; greedy lengths), shaped as above |
| Contacts.PipeMatch | init/helpers.py:51 | on `a@b.co\|1` the letter class takes `co`, and the class as written takes `co\|` |
| Contacts.PipeAsWritten | init/helpers.py:51 | the email finder as written returns `a@b.co\|` for `a@b.co\|1` |
| Contacts.PipeCorrected | init/helpers.py:51 | the corrected email finder returns `a@b.co` for `a@b.co\|1` |
| Contacts.AddressFound | init/helpers.py:49-61 | on `a.b@example.com today` the email finder returns `a.b@example.com`: the top-level domain stops at the space |
| Contacts.AddressFoundAsWritten | init/helpers.py:49-61 | the finder with the pattern as written returns the same address when no `\|` follows it |
| Contacts.ProfileFound | init/helpers.py:78-87 | on `see linkedin.com/in/jdoe-123 today` the LinkedIn finder skips the first word and returns `linkedin.com/in/jdoe-123`, the whole path |
| Contacts.LoneAtIsNotFirst | init/helpers.py:54 | on `a.b@example.com today` a lone `@`, though it occurs and has one `@`, is not the found text |
| Contacts.TruncatedProfileIsNotFirst | init/helpers.py:82-85 | on the profile sentence a truncated `linkedin.com/in/j` is not the found text |
| Contacts.EmailWith | init/helpers.py:51 | the email pattern as a sequence of items: `\b`, the local part, `@`, the domain, `.`, two or more top-level-domain characters, `\b` |
| Contacts.LinkedinWith | init/helpers.py:80 | one branch of the LinkedIn pattern: "linkedin" ignoring case, any non-newline character, "com/", the section, then one or more path characters |
| Scan.DropExcluded | init/app.py:118 | a token remains exactly when it was there and is not excluded, with every one of its occurrences; order is kept |
| Scan.Lemmatize | init/app.py:126 | the conditional always lemmatizes as a verb |
| Scan.LemmatizeAll | init/app.py:126-127 | same length, and each position holds the verb lemma of the token at that position |
| Scan.IsSkill | init/app.py:143-146 | a word is a skill when its isolated tag is one of the thirteen noun, verb and adjective tags and it is not excluded |
| Scan.Skills | init/app.py:141-149 | the skill words of the lemmatized job: no more of them than job tokens, each one a skill |
| Scan.SkillsProperties | init/app.py:141-149 | the skills are an ordered subsequence of the lemmatized job, each tagged as a skill and not excluded, with every skill word's repeats kept |
| Scan.ExtractSkills | init/app.py:134-149 | the loop appends exactly the skill words, in order |
| Scan.JobSkillsFromJob | init/app.py:112-149 | every skill is not excluded, has a skill tag, and is the verb lemma of a non-excluded processed job token |
| Scan.JobSkills | init/app.py:112-149 | the job side: processed, excluded words dropped, lemmatized as verbs, skills kept; no more skills than processed job tokens |
| Scan.ResumeTokens | init/app.py:114-127 | the resume side: one verb lemma per processed resume token, position by position |
| Scan.InRange | init/app.py:105-108 | the word-count flag holds exactly from 450 to 750 words |
| Scan.Band | init/app.py:176-189 | the band message, each band exactly on its range: 76 and up, 65-75, 60-64, 30-59, below 30 |
| Scan.BandMonotonic | init/app.py:176-189 | a higher score never gets a worse message, and the bands meet without gaps |
| Scan.ChooseMessage | init/app.py:169-189 | below 25 words the score becomes 0 with the low-count message; from 26 to 199 the message is the low-count one with the score kept; at 25 or from 200 the score band decides |
| Scan.TableLinesUp | init/app.py:153-193 | the table is fitted on the skills the vectors were built from, so each candidate row holds its term's counts from both token lists |
| Scan.TableRows | init/app.py:193 | every row of the shown table holds a vocabulary term capitalised, its skill count (above 1) and its resume count |
| Keywords.RowsUpToContains | init/helpers.py:149-161 | the loop writes a row for every visited term that is among the skills |
| Scan.RepeatedTermsAreCandidates | init/helpers.py:149-165 | every vocabulary term is a skill, so every term the job repeats is a candidate row |
| Scan.Conclude | init/app.py:165-193 | the score, message and table as the last steps compute them |
| Scan.Scan | init/app.py:79-193 | rejected exactly when the job has at most 10 words; no key words exactly when the skill vocabulary is empty; otherwise the contact results (the email from the pattern as written), word count, 450–750 flag, skills, vectors, score, message and table, each as specified above |

## Left out

- Web plumbing is not modelled: routing, sessions, templates, reading `.docx` uploads and the SQLite inserts. This is input and output around the scan. `lemmatized_job_joined` (init/app.py:130) is built and never used, so it is left out.
- Scan.Conclude: `skills_joined` (init/app.py:153) is the `job_text` on which `compare_key_words` fits its vocabulary. The model passes the skill list itself, whose vocabulary is the same when every skill is made of lower-case word characters (see Vectorize.Analyze).
- The nltk resources are values of a `Lexicon` datatype: tokenizer, stop-word set, WordNet senses, lemmatizer and isolated part-of-speech tagger. Their contents are data downloaded at start-up. `english_words` is never used.
- Vectorize.Analyze: `CountVectorizer` joins the tokens with spaces, lower-cases them and re-tokenises with `\b\w\w+\b`. The model keeps each token of length two or more. This is exact only for tokens made of lower-case word characters. `process_text` yields such tokens, but the lemmatizer is arbitrary here.
- Similarity.AtsScore: the score is the nearest whole percentage to the exact real cosine, with ties to even. The rounding errors of the floating-point square root and division near a half-way value are not modelled.
- Keywords.SortByJobCount: pandas leaves the order of equal job counts unspecified. The model sorts stably but promises only non-increasing order and which rows are kept. The DataFrame's index labels are not modelled.
- Pattern.Match: only the constructs the three patterns use are covered. These are character classes, greedy repetitions, bounded or not, literals with optional ASCII case-insensitivity, `\b`, and an alternation of whole patterns.
- Chars.IsWordChar: `\w`, `\d`, `\b` and `(?i)` are Unicode-aware for Python `str` patterns, but the model treats them as ASCII only. Likewise `lower()` and `capitalize()` change ASCII letters only. Whitespace uses Python's full `isspace` set.

## Findings

| source | as written | input that shows it | evidently intended | confidence | as-written member | corrected member |
|---|---|---|---|---|---|---|
| init/helpers.py:51 | the top-level domain class `[A-Z\|a-z]` also admits the character `\|` | `a@b.co\|1` yields `a@b.co\|` | a class of letters only, `[A-Za-z]`, yielding `a@b.co` | high; not executed | Contacts.PipeAsWritten | Contacts.PipeCorrected |
