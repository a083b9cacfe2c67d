/** `lemmatizeText`: lower-case the text, cut it into words, keep the Russian and English
    words that are long enough, and count the normal forms the morphology analysers give.
    Two tokenisations exist in the code base; `Variant` names them. */
module Lemmatizer {
  import opened Basics
  import opened Text

  /** The two morphology analysers (Lucene `getNormalForms`), taken as given functions. */
  datatype Morphology = Morphology(russian: string -> seq<string>, english: string -> seq<string>)

  /** The collaborators the lemmatizer uses: Java's lower-casing, the `\p{L}` letter class
      and the analysers. */
  datatype TextEnv = TextEnv(lower: char -> char, isLetter: char -> bool, morph: Morphology)

  /** `SplitOnNonLetters` is the `PageCrawler` / `IndexingService` variant: split on `\P{L}+`,
      words of at least 2 characters, Russian letters `[а-яё]`.
      `StripThenSplit` is the `PageIndexingService` / `IndexPageSite` variant: delete
      every character outside `[а-яa-z\s]`, split on `\s+`, words of at least 3 characters,
      Russian letters `[а-я]`. */
  datatype Variant = SplitOnNonLetters | StripThenSplit {

    function MinLength(): nat {
      if this == SplitOnNonLetters then 2 else 3
    }

    predicate IsRussian(c: char) {
      ('а' <= c <= 'я') || (this == SplitOnNonLetters && c == 'ё')
    }
  }

  predicate IsLatin(c: char) {
    'a' <= c <= 'z'
  }

  /** The characters `[^а-яa-z\s]` does not delete. */
  predicate Kept(c: char) {
    ('а' <= c <= 'я') || IsLatin(c) || IsRegexSpace(c)
  }

  predicate NotSpace(c: char) {
    !IsRegexSpace(c)
  }

  predicate AllChars(w: string, p: char -> bool) {
    forall i | 0 <= i < |w| :: p(w[i])
  }

  /** Length of the longest prefix of `s` made of token characters. */
  function RunLength(s: string, inToken: char -> bool): (n: nat)
    ensures n <= |s|
    ensures forall i | 0 <= i < n :: inToken(s[i])
    ensures n < |s| ==> !inToken(s[n])
    decreases |s|
  {
    if s == [] || !inToken(s[0]) then 0 else 1 + RunLength(s[1..], inToken)
  }

  /** The non-empty pieces left when `s` is split on maximal runs of separators
      (`String.split` without the empty strings, which no length filter lets through). */
  function Runs(s: string, inToken: char -> bool): (r: seq<string>)
    ensures forall j | 0 <= j < |r| :: |r[j]| > 0 && AllChars(r[j], inToken)
    ensures Flatten(r) == Filter(s, inToken)
    decreases |s|
  {
    if s == [] then []
    else
      var n := RunLength(s, inToken);
      assert s == s[..n] + s[n..];
      FilterAppend(s[..n], s[n..], inToken);
      if n == 0 then
        assert Filter(s, inToken) == Filter(s[1..], inToken);
        Runs(s[1..], inToken)
      else
        FilterAll(s[..n], inToken);
        [s[..n]] + Runs(s[n..], inToken)
  }

  /** The words `lemmatizeText` iterates over, lower-cased. */
  function Words(v: Variant, env: TextEnv, text: string): seq<string> {
    var lower := LowerCase(text, env.lower);
    match v
    case SplitOnNonLetters => Runs(lower, env.isLetter)
    case StripThenSplit => Runs(Filter(lower, Kept), NotSpace)
  }

  /** A word is analysed when it is long enough and wholly Russian or wholly English. */
  predicate Accepted(v: Variant, w: string) {
    |w| >= v.MinLength() && (AllChars(w, v.IsRussian) || AllChars(w, IsLatin))
  }

  /** The normal forms one word contributes: Russian analyser first, then English,
      nothing for a short or mixed word. */
  function FormsOf(v: Variant, m: Morphology, w: string): (r: seq<string>)
    ensures !Accepted(v, w) ==> r == []
  {
    if |w| < v.MinLength() then []
    else if AllChars(w, v.IsRussian) then m.russian(w)
    else if AllChars(w, IsLatin) then m.english(w)
    else []
  }

  /** Every (word, normal form) pair of a word list, as the sequence of the forms. */
  function AllForms(v: Variant, m: Morphology, ws: seq<string>): seq<string>
    decreases |ws|
  {
    if ws == [] then [] else AllForms(v, m, ws[..|ws| - 1]) + FormsOf(v, m, ws[|ws| - 1])
  }

  /** Each normal form with the number of times it occurs. */
  function CountMap(forms: seq<string>): map<string, nat> {
    map k | k in forms :: multiset(forms)[k]
  }

  /** The lemma counts of a text; `LemmatizeText` computes them the way the source does. */
  function Lemmas(v: Variant, env: TextEnv, text: string): map<string, nat> {
    CountMap(AllForms(v, env.morph, Words(v, env, text)))
  }

  /** The order the writer meets the lemmas in: each at its first occurrence. Java's
      `HashMap` order is unspecified; the writer's contracts hold for any order. */
  function LemmaOrder(v: Variant, env: TextEnv, text: string): (r: seq<string>)
    ensures Distinct(r)
    ensures forall k :: k in r <==> k in Lemmas(v, env, text)
  {
    Dedup(AllForms(v, env.morph, Words(v, env, text)))
  }

  lemma CountMapSnoc(forms: seq<string>, x: string)
    ensures CountMap(forms + [x])
         == CountMap(forms)[x := (if x in CountMap(forms) then CountMap(forms)[x] else 0) + 1]
  {
    var a := CountMap(forms + [x]);
    var b := CountMap(forms)[x := (if x in CountMap(forms) then CountMap(forms)[x] else 0) + 1];
    assert multiset(forms + [x]) == multiset(forms) + multiset{x};
    assert forall k :: k in forms + [x] <==> k in forms || k == x;
    assert a.Keys == b.Keys;
    forall k | k in a.Keys ensures a[k] == b[k] {
      if k != x {
        assert k in forms;
      } else if x !in forms {
        assert multiset(forms)[x] == 0;
      }
    }
  }

  /** The inner loop of `lemmatizeText`: `put(lemma, getOrDefault(lemma, 0) + 1)` for
      every form, on a map that already counts the forms `done`. */
  method BumpAll(counts: map<string, nat>, ghost done: seq<string>, forms: seq<string>)
    returns (r: map<string, nat>)
    requires counts == CountMap(done)
    ensures r == CountMap(done + forms)
  {
    r := counts;
    var j := 0;
    while j < |forms|
      invariant 0 <= j <= |forms|
      invariant r == CountMap(done + forms[..j])
    {
      var form := forms[j];
      CountMapSnoc(done + forms[..j], form);
      assert done + forms[..j + 1] == done + forms[..j] + [form];
      r := r[form := (if form in r then r[form] else 0) + 1];
      j := j + 1;
    }
    assert forms[..j] == forms;
  }

  /** `lemmatizeText` as written: for every word, skip it when short, pick the analyser
      by `matches("[а-яё]+")` (`[а-я]+`) or `matches("[a-z]+")`, and count every form. */
  method LemmatizeText(v: Variant, env: TextEnv, text: string) returns (counts: map<string, nat>)
    ensures counts == Lemmas(v, env, text)
    ensures forall k | k in counts :: counts[k] >= 1
  {
    var words := Words(v, env, text);
    counts := map[];
    var i := 0;
    while i < |words|
      invariant 0 <= i <= |words|
      invariant counts == CountMap(AllForms(v, env.morph, words[..i]))
    {
      var word := words[i];
      var forms := FormsOf(v, env.morph, word);
      AllFormsSnoc(v, env.morph, words, i);
      counts := BumpAll(counts, AllForms(v, env.morph, words[..i]), forms);
      i := i + 1;
    }
    assert words[..i] == words;
    forall k | k in counts ensures counts[k] >= 1 {
      LemmaCountsArePairCounts(AllForms(v, env.morph, words), k);
    }
  }

  lemma AllFormsSnoc(v: Variant, m: Morphology, ws: seq<string>, i: nat)
    requires i < |ws|
    ensures AllForms(v, m, ws[..i + 1]) == AllForms(v, m, ws[..i]) + FormsOf(v, m, ws[i])
  {
    assert ws[..i + 1][..i] == ws[..i];
  }

  /** Every lemma is a normal form of an accepted word, and every normal form of every
      accepted word is a lemma. */
  lemma {:induction false} LemmaKeysAreFormsOfAcceptedWords(v: Variant, m: Morphology, ws: seq<string>, k: string)
    ensures k in CountMap(AllForms(v, m, ws))
        <==> exists j | 0 <= j < |ws| :: Accepted(v, ws[j]) && k in FormsOf(v, m, ws[j])
    decreases |ws|
  {
    if ws != [] {
      var init := ws[..|ws| - 1];
      LemmaKeysAreFormsOfAcceptedWords(v, m, init, k);
      assert forall j | 0 <= j < |init| :: init[j] == ws[j];
      if k in FormsOf(v, m, ws[|ws| - 1]) {
        assert Accepted(v, ws[|ws| - 1]);
      }
    }
  }

  /** Every count is at least one and equals the number of (accepted word, normal form)
      pairs that yield the lemma. */
  lemma LemmaCountsArePairCounts(forms: seq<string>, k: string)
    requires k in CountMap(forms)
    ensures CountMap(forms)[k] == multiset(forms)[k] >= 1
  {
  }

  /** The words of the `StripThenSplit` variant are made of `[а-яa-z]` only: `ё`, digits,
      punctuation and every other script are gone before splitting. */
  lemma {:induction false} StrippedWordsAreRussianOrLatinLetters(env: TextEnv, text: string)
    ensures forall j | 0 <= j < |Words(StripThenSplit, env, text)| ::
      AllChars(Words(StripThenSplit, env, text)[j], c => ('а' <= c <= 'я') || IsLatin(c))
  {
    var stripped := Filter(LowerCase(text, env.lower), Kept);
    var ws := Runs(stripped, NotSpace);
    forall j | 0 <= j < |ws| ensures AllChars(ws[j], c => ('а' <= c <= 'я') || IsLatin(c)) {
      FlattenMember(ws, j);
      forall i | 0 <= i < |ws[j]| ensures ('а' <= ws[j][i] <= 'я') || IsLatin(ws[j][i]) {
        assert ws[j][i] in Flatten(ws);
        assert ws[j][i] in stripped;
        assert NotSpace(ws[j][i]);
      }
    }
  }

  lemma {:induction false} FlattenMember<T>(ss: seq<seq<T>>, j: nat)
    requires j < |ss|
    ensures forall x | x in ss[j] :: x in Flatten(ss)
    decreases |ss|
  {
    if j > 0 {
      FlattenMember(ss[1..], j - 1);
    }
  }

  /** A mixed-script word, such as one joining Russian and Latin letters, yields nothing. */
  lemma MixedWordYieldsNothing(v: Variant, m: Morphology, w: string, i: nat, j: nat)
    requires i < |w| && j < |w|
    requires v.IsRussian(w[i]) && !IsLatin(w[i]) && IsLatin(w[j])
    ensures FormsOf(v, m, w) == []
  {
  }
}
