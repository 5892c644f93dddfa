// Field names: how the generator derives them and how discovery ids reuse them.
module Names {

  /** Unicode's per-rune classification and lower-casing, as far as the name functions use it. */
  datatype Alphabet = Alphabet(lower: char -> char, letter: char -> bool, digit: char -> bool)
  {
    predicate Word(c: char) { letter(c) || digit(c) }

    /** Lower-casing settles after one step, and the characters with a role of their own are not letters or digits. */
    ghost predicate Lawful() {
      && (forall c :: lower(lower(c)) == lower(c))
      && (forall c | c in "_ -/" :: !Word(c) && lower(c) == c)
      && (forall c | c in "field" :: Word(c) && lower(c) == c)
    }

    function Lower(s: string): (t: string)
      ensures |t| == |s| && forall i | 0 <= i < |s| :: t[i] == lower(s[i])
    {
      seq(|s|, i requires 0 <= i < |s| => lower(s[i]))
    }
  }

  lemma WordIs(al: Alphabet, c: char)
    ensures al.Word(c) <==> al.letter(c) || al.digit(c)
  {
  }

  predicate Separator(c: char) { c == ' ' || c == '-' || c == '/' }

  function TrimRight(s: string): string {
    if s != "" && s[|s| - 1] == '_' then TrimRight(s[..|s| - 1]) else s
  }

  function TrimLeft(s: string): string {
    if s != "" && s[0] == '_' then TrimLeft(s[1..]) else s
  }

  function Trim(s: string): string { TrimLeft(TrimRight(s)) }

  // ---- The generator's names -----------------------------------------------------------------------

  /** One step of the generator: copy letters and digits, turn a run of separators into one underscore. */
  function Appended(al: Alphabet, b: string, r: char): string {
    if al.Word(r) then b + [r]
    else if Separator(r) && b != "" && b[|b| - 1] != '_' then b + "_"
    else b
  }

  function Built(al: Alphabet, lowered: string): string {
    if lowered == "" then "" else Appended(al, Built(al, lowered[..|lowered| - 1]), lowered[|lowered| - 1])
  }

  function GoName(al: Alphabet, s: string): string {
    var result := TrimRight(Built(al, al.Lower(s)));
    if result == "" then "field" else result
  }

  lemma BuiltStep(al: Alphabet, lowered: string, i: nat)
    requires i < |lowered|
    ensures Built(al, lowered[..i + 1]) == Appended(al, Built(al, lowered[..i]), lowered[i])
  {
    assert lowered[..i + 1][..i] == lowered[..i];
  }

  method ToGoFieldName(al: Alphabet, s: string) returns (name: string)
    requires al.Lawful()
    ensures name == GoName(al, s)
  {
    var lowered := al.Lower(s);
    var b, prev := "", '_';
    assert Built(al, lowered[..0]) == "";
    hide Built, TrimRight, Separator;
    for i := 0 to |lowered|
      invariant b == Built(al, lowered[..i])
      invariant prev == if b == "" then '_' else b[|b| - 1]
    {
      BuiltStep(al, lowered, i);
      var r := lowered[i];
      if al.Word(r) {
        b := b + [r];
        prev := r;
      } else if Separator(r) {
        if prev != '_' {
          b := b + "_";
          prev := '_';
        }
      }
    }
    assert lowered[..|lowered|] == lowered;
    name := TrimRight(b);
    if name == "" {
      name := "field";
    }
  }

  /** Lower-case letters and digits joined by underscores that neither lead nor double. */
  ghost predicate Joined(al: Alphabet, s: string) {
    && (forall i | 0 <= i < |s| :: s[i] == '_' || (al.Word(s[i]) && al.lower(s[i]) == s[i]))
    && (s != "" ==> s[0] != '_')
    && (forall i | 0 <= i < |s| - 1 :: s[i] == '_' ==> s[i + 1] != '_')
  }

  lemma {:induction false} BuiltJoined(al: Alphabet, s: string)
    requires al.Lawful() && forall i | 0 <= i < |s| :: al.lower(s[i]) == s[i]
    ensures Joined(al, Built(al, s))
  {
    if s != "" {
      BuiltJoined(al, s[..|s| - 1]);
      assert '_' in "_ -/";
    }
  }

  lemma {:induction false} TrimRightShape(s: string)
    ensures TrimRight(s) <= s
    ensures TrimRight(s) != "" ==> TrimRight(s)[|TrimRight(s)| - 1] != '_'
    ensures forall i | |TrimRight(s)| <= i < |s| :: s[i] == '_'
  {
    if s != "" && s[|s| - 1] == '_' {
      TrimRightShape(s[..|s| - 1]);
    }
  }

  /** Every generated name is non-empty, joined, and ends in a letter or digit. */
  lemma GoNameShape(al: Alphabet, s: string)
    requires al.Lawful()
    ensures var n := GoName(al, s); n != "" && Joined(al, n) && n[|n| - 1] != '_'
  {
    var b := Built(al, al.Lower(s));
    BuiltJoined(al, al.Lower(s));
    TrimRightShape(b);
    forall i | 0 <= i < |"field"|
      ensures "field"[i] in "field"
    {
    }
  }

  /** The letters and digits of a string, in order. */
  function WordsOf(al: Alphabet, s: string): string {
    if s == "" then ""
    else WordsOf(al, s[..|s| - 1]) + if al.Word(s[|s| - 1]) then [s[|s| - 1]] else ""
  }

  lemma {:induction false} BuiltWords(al: Alphabet, s: string)
    requires al.Lawful()
    ensures WordsOf(al, Built(al, s)) == WordsOf(al, s)
  {
    if s != "" {
      var b, r := Built(al, s[..|s| - 1]), s[|s| - 1];
      BuiltWords(al, s[..|s| - 1]);
      assert '_' in "_ -/";
      assert (b + [r])[..|b|] == b && (b + "_")[..|b|] == b;
    }
  }

  lemma {:induction false} TrimRightWords(al: Alphabet, s: string)
    requires al.Lawful()
    ensures WordsOf(al, TrimRight(s)) == WordsOf(al, s)
  {
    if s != "" && s[|s| - 1] == '_' {
      assert '_' in "_ -/";
      TrimRightWords(al, s[..|s| - 1]);
    }
  }

  /** No letter or digit of the original name is lost, added or moved; only without any does "field" stand in. */
  lemma GoNameWords(al: Alphabet, s: string)
    requires al.Lawful()
    ensures var w := WordsOf(al, al.Lower(s));
      if w == "" then GoName(al, s) == "field" else WordsOf(al, GoName(al, s)) == w
  {
    var b := Built(al, al.Lower(s));
    BuiltWords(al, al.Lower(s));
    TrimRightWords(al, b);
    BuiltJoined(al, al.Lower(s));
    TrimRightShape(b);
    var t := TrimRight(b);
    if t != "" {
      assert al.Word(t[|t| - 1]);
    }
  }

  lemma {:induction false} BuiltThenWord(al: Alphabet, s: string, w: string)
    requires forall i | 0 <= i < |w| :: al.Word(w[i])
    ensures Built(al, s + w) == Built(al, s) + w
    decreases |w|
  {
    if w == "" {
      assert s + w == s;
    } else {
      BuiltThenWord(al, s, w[..|w| - 1]);
      assert (s + w)[..|s + w| - 1] == s + w[..|w| - 1];
    }
  }

  lemma {:induction false} BuiltThenGap(al: Alphabet, s: string, gap: string)
    requires al.Lawful() && s != "" && al.Word(s[|s| - 1])
    requires gap != "" && forall i | 0 <= i < |gap| :: Separator(gap[i])
    ensures Built(al, s + gap) == Built(al, s) + "_"
    decreases |gap|
  {
    var t, r := s + gap[..|gap| - 1], gap[|gap| - 1];
    assert (s + gap)[..|s + gap| - 1] == t;
    assert !al.Word(r) by {
      assert r in "_ -/";
    }
    if |gap| == 1 {
      assert t == s;
      var b := Built(al, s[..|s| - 1]);
      assert Built(al, s) == b + [s[|s| - 1]];
      assert '_' in "_ -/";
    } else {
      BuiltThenGap(al, s, gap[..|gap| - 1]);
    }
  }

  lemma {:induction false} SameThen(al: Alphabet, s: string, t: string, w: string)
    requires Built(al, s) == Built(al, t)
    ensures Built(al, s + w) == Built(al, t + w)
    decreases |w|
  {
    if w == "" {
      assert s + w == s && t + w == t;
    } else {
      SameThen(al, s, t, w[..|w| - 1]);
      assert (s + w)[..|s + w| - 1] == s + w[..|w| - 1] && (t + w)[..|t + w| - 1] == t + w[..|w| - 1];
    }
  }

  lemma SeparatorIs(c: char)
    ensures Separator(c) <==> c in " -/"
  {
  }

  lemma {:induction false} GapIsSpace(al: Alphabet, s: string, gap: string)
    requires al.Lawful() && gap != "" && forall i | 0 <= i < |gap| :: Separator(gap[i])
    ensures Built(al, s + gap) == Built(al, s + " ")
    decreases |gap|
  {
    var n := |gap| - 1;
    var r := gap[n];
    assert (s + " ")[..|s|] == s && (s + gap)[..|s + gap| - 1] == s + gap[..n];
    assert !al.Word(r) && !al.Word(' ') by {
      assert r in "_ -/" && ' ' in "_ -/";
    }
    if n == 0 {
      assert s + gap[..n] == s;
    } else {
      GapIsSpace(al, s, gap[..n]);
    }
  }

  lemma {:induction false} LowerKeepsGap(al: Alphabet, gap: string)
    requires al.Lawful() && forall i | 0 <= i < |gap| :: Separator(gap[i])
    ensures al.Lower(gap) == gap
  {
    forall i | 0 <= i < |gap|
      ensures al.lower(gap[i]) == gap[i]
    {
      assert gap[i] in "_ -/";
    }
  }

  /** Anywhere in a name, a run of spaces, dashes and slashes counts as a single space. */
  lemma SeparatorsJoin(al: Alphabet, s: string, gap: string, t: string)
    requires al.Lawful() && gap != "" && forall i | 0 <= i < |gap| :: gap[i] in " -/"
    ensures GoName(al, s + gap + t) == GoName(al, s + " " + t)
  {
    forall i | 0 <= i < |gap|
      ensures Separator(gap[i])
    {
      SeparatorIs(gap[i]);
    }
    var u, v := al.Lower(s), al.Lower(t);
    LowerKeepsGap(al, gap);
    LowerKeepsGap(al, " ");
    assert al.Lower(s + gap + t) == u + gap + v && al.Lower(s + " " + t) == u + " " + v;
    GapIsSpace(al, u, gap);
    SameThen(al, u + gap, u + " ", v);
  }

  /** Any other character that is no letter or digit is left out without trace. */
  lemma OthersDropped(al: Alphabet, s: string, c: char, t: string)
    requires var r := al.lower(c); !al.letter(r) && !al.digit(r) && r !in " -/"
    ensures GoName(al, s + [c] + t) == GoName(al, s + t)
  {
    var u, v, r := al.Lower(s), al.Lower(t), al.lower(c);
    assert al.Lower(s + [c] + t) == u + [r] + v && al.Lower(s + t) == u + v;
    BuiltIgnores(al, u, r);
    SameThen(al, u + [r], u, v);
    hide Built, TrimRight;
  }

  lemma BuiltIgnores(al: Alphabet, s: string, r: char)
    requires !al.letter(r) && !al.digit(r) && r !in " -/"
    ensures Built(al, s + [r]) == Built(al, s)
  {
    WordIs(al, r);
    SeparatorIs(r);
    hide Separator, Alphabet.Word;
    assert (s + [r])[..|s|] == s;
  }

  /** Words with a run of separators before each of them; only the first run may be empty. */
  ghost predicate WellPhrased(al: Alphabet, words: seq<string>, gaps: seq<string>) {
    && |gaps| == |words|
    && (forall i | 0 <= i < |words| :: words[i] != "" && forall c | c in words[i] :: al.Word(c))
    && (forall i | 0 <= i < |gaps| :: (i > 0 ==> gaps[i] != "") && forall c | c in gaps[i] :: Separator(c))
  }

  function Phrase(words: seq<string>, gaps: seq<string>): string
    requires |gaps| == |words|
  {
    if words == [] then ""
    else
      var n := |words| - 1;
      Phrase(words[..n], gaps[..n]) + gaps[n] + words[n]
  }

  function Join(words: seq<string>): string {
    if words == [] then ""
    else
      var n := |words| - 1;
      Join(words[..n]) + (if n == 0 then "" else "_") + words[n]
  }

  lemma {:induction false} BuiltLeadingGap(al: Alphabet, gap: string)
    requires al.Lawful() && forall c | c in gap :: Separator(c)
    ensures Built(al, gap) == ""
  {
    if gap != "" {
      var n := |gap| - 1;
      BuiltLeadingGap(al, gap[..n]);
      assert Separator(gap[n]) by {
        assert gap[n] in gap;
      }
      assert gap[n] in "_ -/";
    }
  }

  lemma {:induction false} PhraseEnd(al: Alphabet, words: seq<string>, gaps: seq<string>)
    requires WellPhrased(al, words, gaps) && words != []
    ensures var s := Phrase(words, gaps); s != "" && al.Word(s[|s| - 1])
  {
    var w := words[|words| - 1];
    assert w[|w| - 1] in w;
  }

  lemma PhraseFront(al: Alphabet, words: seq<string>, gaps: seq<string>)
    requires WellPhrased(al, words, gaps) && words != []
    ensures WellPhrased(al, words[..|words| - 1], gaps[..|words| - 1])
  {
  }

  /** One more gap and word. */
  lemma BuiltMore(al: Alphabet, s: string, gap: string, w: string)
    requires al.Lawful() && (s != "" ==> gap != "" && al.Word(s[|s| - 1]))
    requires (forall c | c in gap :: Separator(c)) && forall c | c in w :: al.Word(c)
    ensures Built(al, s + gap + w) == Built(al, s) + (if s == "" then "" else "_") + w
  {
    hide Built, Separator;
    assert forall i | 0 <= i < |w| :: w[i] in w;
    BuiltThenWord(al, s + gap, w);
    if s == "" {
      assert s + gap == gap;
      BuiltLeadingGap(al, gap);
      BuiltLeadingGap(al, "");
    } else {
      assert forall i | 0 <= i < |gap| :: gap[i] in gap;
      BuiltThenGap(al, s, gap);
    }
  }

  /** A phrase is the phrase of all words but the last, a gap and that word; what is joined follows. */
  lemma PhraseStep(al: Alphabet, words: seq<string>, gaps: seq<string>, n: nat)
    requires al.Lawful() && WellPhrased(al, words, gaps) && n == |words| - 1
    ensures WellPhrased(al, words[..n], gaps[..n])
    ensures var s := Phrase(words[..n], gaps[..n]);
      && Phrase(words, gaps) == s + gaps[n] + words[n]
      && (s == "" <==> n == 0)
      && (s != "" ==> gaps[n] != "" && al.Word(s[|s| - 1]))
      && (forall c | c in gaps[n] :: Separator(c)) && (forall c | c in words[n] :: al.Word(c))
  {
    PhraseFront(al, words, gaps);
    if n > 0 {
      PhraseEnd(al, words[..n], gaps[..n]);
    }
  }

  lemma JoinLast(words: seq<string>, n: nat)
    requires n == |words| - 1
    ensures Join(words) == Join(words[..n]) + (if n == 0 then "" else "_") + words[n]
  {
  }

  lemma {:induction false} BuiltPhrase(al: Alphabet, words: seq<string>, gaps: seq<string>)
    requires al.Lawful() && WellPhrased(al, words, gaps)
    ensures Built(al, Phrase(words, gaps)) == Join(words)
  {
    if words != [] {
      var n := |words| - 1;
      PhraseStep(al, words, gaps, n);
      hide Built, Phrase, Join, WellPhrased;
      BuiltPhrase(al, words[..n], gaps[..n]);
      BuiltMore(al, Phrase(words[..n], gaps[..n]), gaps[n], words[n]);
      JoinLast(words, n);
    }
  }

  lemma {:induction false} JoinEnd(al: Alphabet, words: seq<string>, gaps: seq<string>)
    requires al.Lawful() && WellPhrased(al, words, gaps) && words != []
    ensures var j := Join(words); j != "" && j[|j| - 1] != '_'
  {
    var w := words[|words| - 1];
    assert w[|w| - 1] in w && '_' in "_ -/";
  }

  /** A name of words separated by any runs of spaces, dashes and slashes, also before and after, becomes those words
      joined by single underscores. */
  lemma GoNameOfPhrase(al: Alphabet, s: string, words: seq<string>, gaps: seq<string>, trail: string)
    requires al.Lawful() && words != [] && WellPhrased(al, words, gaps)
    requires forall c | c in trail :: Separator(c)
    requires al.Lower(s) == Phrase(words, gaps) + trail
    ensures GoName(al, s) == Join(words)
  {
    var p := Phrase(words, gaps);
    BuiltPhrase(al, words, gaps);
    JoinEnd(al, words, gaps);
    if trail == "" {
      assert p + trail == p;
      TrimOne(Join(words));
    } else {
      PhraseEnd(al, words, gaps);
      assert forall i | 0 <= i < |trail| :: trail[i] in trail;
      BuiltThenGap(al, p, trail);
      TrimOne(Join(words));
    }
  }

  /** A space, a dash or a slash between two words becomes an underscore. */
  lemma SeparatorBetween(al: Alphabet, a: string, c: char, b: string)
    requires al.Lawful() && c in " -/" && a != "" && b != ""
    requires forall x | x in al.Lower(a) || x in al.Lower(b) :: al.letter(x) || al.digit(x)
    ensures GoName(al, a + [c] + b) == al.Lower(a) + "_" + al.Lower(b)
  {
    forall x | x in al.Lower(a) || x in al.Lower(b)
      ensures al.Word(x)
    {
      WordIs(al, x);
    }
    SeparatorIs(c);
    assert c in "_ -/";
    assert al.Lower(a + [c] + b) == al.Lower(a) + [c] + al.Lower(b);
    TwoWords(al, al.Lower(a), c, al.Lower(b));
    hide *;
    assert al.Lower(a) + [c] + al.Lower(b) + "" == al.Lower(a) + [c] + al.Lower(b);
    GoNameOfPhrase(al, a + [c] + b, [al.Lower(a), al.Lower(b)], ["", [c]], "");
  }

  lemma TwoWords(al: Alphabet, a: string, c: char, b: string)
    requires a != "" && b != "" && Separator(c) && forall x | x in a || x in b :: al.Word(x)
    ensures WellPhrased(al, [a, b], ["", [c]])
    ensures Phrase([a, b], ["", [c]]) == a + [c] + b && Join([a, b]) == a + "_" + b
  {
    assert [a, b][..1] == [a] && ["", [c]][..1] == [""] && [a][..0] == [] && [""][..0] == [];
    assert Phrase([a], [""]) == a && Join([a]) == a;
    hide Separator, Alphabet.Word;
  }

  lemma TrimOne(j: string)
    requires j != "" && j[|j| - 1] != '_'
    ensures TrimRight(j) == j && TrimRight(j + "_") == j
  {
    assert (j + "_")[..|j|] == j;
  }

  // ---- When two names agree ------------------------------------------------------------------------

  /** The letters and digits between separators, other characters left out. */
  function Split(al: Alphabet, s: string): (parts: seq<string>)
    ensures parts != []
    ensures forall i, j | 0 <= i < |parts| && 0 <= j < |parts[i]| :: al.Word(parts[i][j])
  {
    if s == "" then [""]
    else
      var front, r := Split(al, s[..|s| - 1]), s[|s| - 1];
      if al.Word(r) then front[..|front| - 1] + [front[|front| - 1] + [r]]
      else if Separator(r) then front + [""]
      else front
  }

  function NonEmpty(parts: seq<string>): (words: seq<string>)
    ensures forall w | w in words :: w in parts && w != ""
  {
    if parts == [] then []
    else
      var n := |parts| - 1;
      NonEmpty(parts[..n]) + if parts[n] == "" then [] else [parts[n]]
  }

  /** The words of a name. */
  function NameWords(al: Alphabet, s: string): seq<string> {
    var words := NonEmpty(Split(al, al.Lower(s)));
    if words == [] then ["field"] else words
  }

  /** What the generator has built: the finished words, and the one it is in or an underscore after them. */
  function Unfinished(words: seq<string>, last: string): string {
    if last != "" then Join(words + [last]) else if words == [] then "" else Join(words) + "_"
  }

  lemma JoinSnoc(words: seq<string>, w: string)
    ensures Join(words + [w]) == Join(words) + (if words == [] then "" else "_") + w
  {
    assert (words + [w])[..|words|] == words;
  }

  lemma NonEmptySnoc(parts: seq<string>, w: string)
    ensures NonEmpty(parts + [w]) == NonEmpty(parts) + if w == "" then [] else [w]
  {
    assert (parts + [w])[..|parts|] == parts;
  }

  lemma UnfinishedWord(words: seq<string>, last: string, r: char)
    ensures Unfinished(words, last) + [r] == Unfinished(words, last + [r])
  {
    JoinSnoc(words, last);
    JoinSnoc(words, last + [r]);
  }

  lemma UnfinishedGap(al: Alphabet, words: seq<string>, last: string, r: char)
    requires al.Lawful() && Separator(r) && !al.Word(r)
    requires last != "" ==> al.Word(last[|last| - 1])
    ensures Appended(al, Unfinished(words, last), r) ==
            Unfinished(if last == "" then words else words + [last], "")
  {
    JoinSnoc(words, last);
    assert '_' in "_ -/";
  }

  /** The generator's buffer shows the words of what it has read. */
  lemma {:induction false} BuiltIs(al: Alphabet, s: string)
    requires al.Lawful()
    ensures var parts := Split(al, s); var n := |parts| - 1;
      Built(al, s) == Unfinished(NonEmpty(parts[..n]), parts[n])
  {
    if s != "" {
      var front, r := Split(al, s[..|s| - 1]), s[|s| - 1];
      var n := |front| - 1;
      BuiltIs(al, s[..|s| - 1]);
      hide Join;
      if al.Word(r) {
        UnfinishedWord(NonEmpty(front[..n]), front[n], r);
      } else if Separator(r) {
        UnfinishedGap(al, NonEmpty(front[..n]), front[n], r);
        NonEmptySnoc(front[..n], front[n]);
        assert front[..n] + [front[n]] == front;
        assert Split(al, s) == front + [""] && (front + [""])[..n + 1] == front;
        assert NonEmpty(front) == if front[n] == "" then NonEmpty(front[..n]) else NonEmpty(front[..n]) + [front[n]];
      }
    }
  }

  /** Words as the generator knows them. */
  ghost predicate Proper(al: Alphabet, words: seq<string>) {
    forall i | 0 <= i < |words| :: words[i] != "" && forall j | 0 <= j < |words[i]| :: al.Word(words[i][j])
  }

  lemma NameWordsProper(al: Alphabet, s: string)
    requires al.Lawful()
    ensures NameWords(al, s) != [] && Proper(al, NameWords(al, s))
  {
    NonEmptyProper(al, al.Lower(s));
    assert forall j | 0 <= j < |"field"| :: "field"[j] in "field";
  }

  lemma ProperEnd(al: Alphabet, words: seq<string>)
    requires al.Lawful() && Proper(al, words) && words != []
    ensures var j := Join(words); j != "" && j[|j| - 1] != '_'
  {
    var w := words[|words| - 1];
    assert al.Word(w[|w| - 1]) && '_' in "_ -/";
  }

  /** Trimming what has been built leaves its words. */
  lemma TrimUnfinished(al: Alphabet, words: seq<string>, last: string)
    requires al.Lawful() && Proper(al, words) && (last != "" ==> Proper(al, words + [last]))
    ensures TrimRight(Unfinished(words, last)) == Join(if last == "" then words else words + [last])
  {
    if last != "" {
      ProperEnd(al, words + [last]);
      TrimOne(Join(words + [last]));
    } else if words != [] {
      ProperEnd(al, words);
      TrimOne(Join(words));
    }
  }

  lemma NonEmptyProper(al: Alphabet, s: string)
    ensures Proper(al, NonEmpty(Split(al, s)))
  {
    var parts := Split(al, s);
    var words := NonEmpty(parts);
    forall i | 0 <= i < |words|
      ensures words[i] != "" && forall j | 0 <= j < |words[i]| :: al.Word(words[i][j])
    {
      assert words[i] in words;
      var k :| 0 <= k < |parts| && parts[k] == words[i];
    }
  }

  lemma TrimmedBuilt(al: Alphabet, s: string)
    requires al.Lawful()
    ensures TrimRight(Built(al, s)) == Join(NonEmpty(Split(al, s)))
  {
    hide *;
    var parts := Split(al, s);
    var n := |parts| - 1;
    BuiltIs(al, s);
    NonEmptySnoc(parts[..n], parts[n]);
    NonEmptyProper(al, s);
    assert parts[..n] + [parts[n]] == parts;
    ProperFront(al, NonEmpty(parts[..n]), parts[n]);
    TrimUnfinished(al, NonEmpty(parts[..n]), parts[n]);
    assert NonEmpty(parts[..n]) + [] == NonEmpty(parts[..n]);
  }

  lemma ProperFront(al: Alphabet, words: seq<string>, last: string)
    requires Proper(al, words + if last == "" then [] else [last])
    ensures Proper(al, words) && (last != "" ==> Proper(al, words + [last]))
  {
    var all := words + if last == "" then [] else [last];
    assert forall i | 0 <= i < |words| :: words[i] == all[i];
  }

  /** A name is its words joined by underscores. */
  lemma GoNameIs(al: Alphabet, s: string)
    requires al.Lawful()
    ensures GoName(al, s) == Join(NameWords(al, s))
  {
    var words := NonEmpty(Split(al, al.Lower(s)));
    TrimmedBuilt(al, al.Lower(s));
    NonEmptyProper(al, al.Lower(s));
    hide TrimRight, Built, Join, NonEmpty, Split, Proper;
    if words != [] {
      ProperEnd(al, words);
    } else {
      EmptyJoin();
      JoinOne("field");
    }
  }

  lemma JoinOne(w: string)
    ensures Join([w]) == w
  {
    assert [w][..0] == [];
  }

  lemma EmptyJoin()
    ensures Join([]) == ""
  {
  }

  /** Nothing ends in two different last words. */
  lemma LastWord(al: Alphabet, p: string, x: string, q: string, y: string)
    requires al.Lawful() && p + x == q + y
    requires forall i | 0 <= i < |y| :: al.Word(y[i])
    requires p == "" || p[|p| - 1] == '_'
    ensures |y| <= |x|
  {
    assert '_' in "_ -/";
    assert p != "" ==> (q + y)[|p| - 1] == '_';
  }

  function Before(words: seq<string>, n: nat): string
    requires n < |words|
  {
    Join(words[..n]) + if n == 0 then "" else "_"
  }

  lemma JoinEnds(words: seq<string>, n: nat)
    requires n == |words| - 1
    ensures Join(words) == Before(words, n) + words[n]
    ensures Before(words, n) == "" || Before(words, n)[|Before(words, n)| - 1] == '_'
    ensures Before(words, n) == "" <==> n == 0
    ensures n > 0 ==> Join(words[..n]) == Before(words, n)[..|Before(words, n)| - 1]
  {
    JoinLast(words, n);
    hide Join;
  }

  lemma ProperAt(al: Alphabet, words: seq<string>, n: nat)
    requires Proper(al, words) && n < |words|
    ensures Proper(al, words[..n]) && forall i | 0 <= i < |words[n]| :: al.Word(words[n][i])
  {
    hide Alphabet.Word;
  }

  /** Equal joins end in the same word, after equal joins. */
  lemma LastAlike(al: Alphabet, u: seq<string>, m: nat, v: seq<string>, n: nat)
    requires al.Lawful() && Proper(al, u) && Proper(al, v) && Join(u) == Join(v) && m == |u| - 1 && n == |v| - 1
    ensures Proper(al, u[..m]) && Proper(al, v[..n])
    ensures u[m] == v[n] && Join(u[..m]) == Join(v[..n])
  {
    hide *;
    JoinEnds(u, m);
    JoinEnds(v, n);
    ProperAt(al, u, m);
    ProperAt(al, v, n);
    var p, q := Before(u, m), Before(v, n);
    LastWord(al, p, u[m], q, v[n]);
    LastWord(al, q, v[n], p, u[m]);
    assert p == (p + u[m])[..|p|] == (q + v[n])[..|q|] == q;
    assert u[m] == (p + u[m])[|p|..] == (q + v[n])[|q|..] == v[n];
    if m == 0 {
      assert u[..m] == v[..n] == [];
    }
  }

  lemma {:induction false} JoinInjective(al: Alphabet, u: seq<string>, v: seq<string>)
    requires al.Lawful() && Proper(al, u) && Proper(al, v) && Join(u) == Join(v)
    ensures u == v
  {
    if u == [] || v == [] {
      if u != [] {
        ProperEnd(al, u);
      }
      if v != [] {
        ProperEnd(al, v);
      }
    } else {
      hide *;
      var m, n := |u| - 1, |v| - 1;
      LastAlike(al, u, m, v, n);
      JoinInjective(al, u[..m], v[..n]);
      assert u == u[..m] + [u[m]] && v == v[..n] + [v[n]];
    }
  }

  /** Two names collapse into one exactly when they consist of the same words. */
  lemma GoNameAgreeIff(al: Alphabet, s: string, t: string)
    requires al.Lawful()
    ensures GoName(al, s) == GoName(al, t) <==> NameWords(al, s) == NameWords(al, t)
  {
    GoNameIs(al, s);
    GoNameIs(al, t);
    NameWordsProper(al, s);
    NameWordsProper(al, t);
    if GoName(al, s) == GoName(al, t) {
      JoinInjective(al, NameWords(al, s), NameWords(al, t));
    }
  }

  // ---- Discovery slugs -----------------------------------------------------------------------------

  function Squashed(al: Alphabet, lowered: string): (t: string)
    ensures |t| == |lowered|
    ensures forall i | 0 <= i < |t| :: t[i] == if al.Word(lowered[i]) then lowered[i] else '_'
  {
    seq(|lowered|, i requires 0 <= i < |lowered| => if al.Word(lowered[i]) then lowered[i] else '_')
  }

  function Slug(al: Alphabet, name: string): string { Trim(Squashed(al, al.Lower(name))) }

  method FieldSlug(al: Alphabet, name: string) returns (slug: string)
    ensures slug == Slug(al, name)
  {
    var lowered := al.Lower(name);
    var b := "";
    for i := 0 to |lowered|
      invariant b == Squashed(al, lowered)[..i]
    {
      if al.Word(lowered[i]) {
        b := b + [lowered[i]];
      } else {
        b := b + "_";
      }
    }
    assert Squashed(al, lowered)[..|lowered|] == Squashed(al, lowered);
    slug := Trim(b);
  }

  /** Lower-case letters, digits and underscores, with no underscore at either end. */
  ghost predicate SlugForm(al: Alphabet, s: string) {
    && (forall i | 0 <= i < |s| :: s[i] == '_' || (al.Word(s[i]) && al.lower(s[i]) == s[i]))
    && (s != "" ==> s[0] != '_' && s[|s| - 1] != '_')
  }

  lemma {:induction false} TrimLeftShape(s: string)
    ensures |TrimLeft(s)| <= |s| && TrimLeft(s) == s[|s| - |TrimLeft(s)|..]
    ensures TrimLeft(s) != "" ==> TrimLeft(s)[0] != '_'
  {
    if s != "" && s[0] == '_' {
      TrimLeftShape(s[1..]);
    }
  }

  /** A slug always has the slug form. */
  lemma SlugHasForm(al: Alphabet, name: string)
    requires al.Lawful()
    ensures SlugForm(al, Slug(al, name))
  {
    var t := Squashed(al, al.Lower(name));
    var u := TrimRight(t);
    TrimRightShape(t);
    TrimLeftShape(u);
    var v := TrimLeft(u);
    forall i | 0 <= i < |v|
      ensures v[i] == '_' || (al.Word(v[i]) && al.lower(v[i]) == v[i])
    {
      assert v[i] == u[|u| - |v| + i] == t[|u| - |v| + i];
    }
  }

  /** Slugging leaves a name alone exactly when it already has the slug form. */
  lemma SlugFixedIff(al: Alphabet, name: string)
    requires al.Lawful()
    ensures Slug(al, name) == name <==> SlugForm(al, name)
  {
    SlugHasForm(al, name);
    if SlugForm(al, name) {
      assert '_' in "_ -/";
      assert Squashed(al, al.Lower(name)) == name by {
        assert '_' in "_ -/";
      }
    }
  }

  /** Trimming cuts off underscores only, and all of them, at both ends. */
  lemma TrimIs(t: string) returns (lo: nat)
    ensures lo + |Trim(t)| <= |t| && Trim(t) == t[lo..lo + |Trim(t)|]
    ensures forall i | 0 <= i < |t| && !(lo <= i < lo + |Trim(t)|) :: t[i] == '_'
    ensures Trim(t) != "" ==> Trim(t)[0] != '_' && Trim(t)[|Trim(t)| - 1] != '_'
  {
    var u := TrimRight(t);
    TrimRightShape(t);
    TrimLeftShape(u);
    TrimLeftOff(u);
    lo := |u| - |TrimLeft(u)|;
    hide TrimRight, TrimLeft;
    assert TrimLeft(u) != "" ==> TrimLeft(u)[|TrimLeft(u)| - 1] == u[|u| - 1];
  }

  /** The slug is a stretch of the lowered name with underscores for all but letters and digits; it begins and
      ends with no underscore, and outside of it there are no letters or digits. */
  lemma SlugIs(al: Alphabet, name: string) returns (lo: nat)
    requires al.Lawful()
    ensures var slug := Slug(al, name);
      && lo + |slug| <= |name|
      && (forall i | 0 <= i < |slug| ::
            var r := al.lower(name[lo + i]); slug[i] == if al.letter(r) || al.digit(r) then r else '_')
      && (forall i | 0 <= i < |name| && !(lo <= i < lo + |slug|) ::
            var r := al.lower(name[i]); !al.letter(r) && !al.digit(r))
      && (slug != "" ==> slug[0] != '_' && slug[|slug| - 1] != '_')
  {
    SquashedIs(al, name);
    assert Slug(al, name) == Trim(Squashed(al, al.Lower(name)));
    hide *;
    lo := TrimIs(Squashed(al, al.Lower(name)));
  }

  /** Letters and digits are kept, lowered; everything else becomes an underscore, which is none of them. */
  lemma SquashedIs(al: Alphabet, name: string)
    requires al.Lawful()
    ensures var t := Squashed(al, al.Lower(name));
      |t| == |name| && forall i | 0 <= i < |name| ::
        var r := al.lower(name[i]);
        (t[i] == if al.letter(r) || al.digit(r) then r else '_') && (al.letter(r) || al.digit(r) ==> r != '_')
  {
    assert !al.Word('_') by {
      assert '_' in "_ -/";
    }
    hide Alphabet.Lawful;
  }

  lemma {:induction false} TrimLeftOff(s: string)
    ensures forall i | 0 <= i < |s| - |TrimLeft(s)| :: s[i] == '_'
  {
    if s != "" && s[0] == '_' {
      TrimLeftOff(s[1..]);
    }
  }

  /** On the generator's names slugging is the identity. */
  lemma GoNameIsSlug(al: Alphabet, s: string)
    requires al.Lawful()
    ensures Slug(al, GoName(al, s)) == GoName(al, s)
  {
    GoNameShape(al, s);
    SlugFixedIff(al, GoName(al, s));
  }
}
