/**
 * `into_slug` (src/parser/utils.rs): lowercase the text, turn every
 * character that is not alphanumeric into `-`, split at `-`, drop the
 * empty pieces and join what is left with `-`.
 *
 * Lowercasing and the alphanumeric test are modelled on ASCII.
 */
module Slug {
  import opened Strings

  predicate IsAsciiAlphanumeric(c: char) {
    'a' <= c <= 'z' || 'A' <= c <= 'Z' || '0' <= c <= '9'
  }

  /** The characters a slug is made of, apart from `-`. */
  predicate IsSlugAlphanumeric(c: char) {
    'a' <= c <= 'z' || '0' <= c <= '9'
  }

  function ToLower(c: char): char {
    if 'A' <= c <= 'Z' then (c as int + 32) as char else c
  }

  /** The per-character map: lowercase, then keep it if alphanumeric, else `-`. */
  function SlugChar(c: char): char {
    var l := ToLower(c);
    if IsAsciiAlphanumeric(l) then l else '-'
  }

  function MapChars(s: string): (r: string)
    ensures |r| == |s|
    ensures forall i :: 0 <= i < |s| ==> r[i] == SlugChar(s[i])
  {
    if s == [] then [] else [SlugChar(s[0])] + MapChars(s[1..])
  }

  /** `str::split(sep)`: the pieces between separators, empty ones included; never an empty list. */
  function Split(s: string, sep: char): (parts: seq<string>)
    ensures |parts| >= 1
    decreases |s|
  {
    var i := IndexOf(s, sep);
    if i == |s| then [s] else [s[..i]] + Split(s[i + 1..], sep)
  }

  /** `filter(|segment| !segment.is_empty())`. */
  function NonEmpty(parts: seq<string>): (r: seq<string>)
    ensures forall k :: 0 <= k < |r| ==> r[k] != [] && r[k] in parts
  {
    if parts == [] then []
    else if parts[0] == [] then NonEmpty(parts[1..])
    else [parts[0]] + NonEmpty(parts[1..])
  }

  /** Converts text into a URL-safe slug. */
  function IntoSlug(text: string): string {
    Join(NonEmpty(Split(MapChars(text), '-')), "-")
  }

  /** The output shape of a slug: lowercase alphanumerics and single inner dashes. */
  predicate IsSlug(t: string) {
    && (forall i :: 0 <= i < |t| ==> IsSlugAlphanumeric(t[i]) || t[i] == '-')
    && NoStrayDash(t)
  }

  /** No leading or trailing `-`, and never `--`. */
  predicate NoStrayDash(t: string) {
    && (t != [] ==> t[0] != '-' && t[|t| - 1] != '-')
    && (forall i :: 0 <= i < |t| - 1 ==> t[i] == '-' ==> t[i + 1] != '-')
  }

  predicate AllSlugAlphanumeric(p: string) {
    forall j :: 0 <= j < |p| ==> IsSlugAlphanumeric(p[j])
  }

  /** The lowercased alphanumeric characters of `s`, in order. */
  function LowerAlphanumerics(s: string): string {
    if s == [] then []
    else (if IsAsciiAlphanumeric(s[0]) then [ToLower(s[0])] else []) + LowerAlphanumerics(s[1..])
  }

  /** `s` with every `-` removed. */
  function DropDashes(s: string): string {
    if s == [] then [] else (if s[0] == '-' then [] else [s[0]]) + DropDashes(s[1..])
  }

  // ---------------------------------------------------------------------
  // Output shape

  /** Every piece of splitting a string of slug characters at `-` is dash-free and alphanumeric. */
  lemma {:induction false} SplitPiecesAlphanumeric(s: string)
    requires forall i :: 0 <= i < |s| ==> IsSlugAlphanumeric(s[i]) || s[i] == '-'
    ensures forall k :: 0 <= k < |Split(s, '-')| ==> AllSlugAlphanumeric(Split(s, '-')[k])
  {
    var i := IndexOf(s, '-');
    if i < |s| {
      SplitPiecesAlphanumeric(s[i + 1..]);
    }
  }

  /** Joining non-empty alphanumeric pieces with `-` gives a well-formed slug. */
  lemma {:induction false} JoinIsSlug(ps: seq<string>)
    requires forall k :: 0 <= k < |ps| ==> ps[k] != [] && AllSlugAlphanumeric(ps[k])
    ensures IsSlug(Join(ps, "-"))
  {
    if |ps| > 1 {
      JoinIsSlug(ps[1..]);
      var rest := Join(ps[1..], "-");
      var t := Join(ps, "-");
      assert t == ps[0] + "-" + rest;
      assert rest != [] && rest[0] != '-' by {
        assert rest[..|ps[1]|] == ps[1] by { JoinStartsWithFirst(ps[1..]); }
      }
      assert forall j :: 0 <= j < |ps[0]| ==> t[j] == ps[0][j];
      forall i | |ps[0]| < i < |t| - 1 && t[i] == '-'
        ensures t[i + 1] != '-'
      {
        assert t[i] == rest[i - |ps[0]| - 1];
      }
      forall i | 0 <= i < |t|
        ensures IsSlugAlphanumeric(t[i]) || t[i] == '-'
      {
        if i < |ps[0]| {
          assert t[i] == ps[0][i];
        } else if i > |ps[0]| {
          assert t[i] == rest[i - |ps[0]| - 1];
        }
      }
      assert t[|t| - 1] == rest[|rest| - 1];
    } else if |ps| == 1 {
      assert Join(ps, "-") == ps[0];
    }
  }

  lemma {:induction false} JoinStartsWithFirst(ps: seq<string>)
    requires ps != []
    ensures |Join(ps, "-")| >= |ps[0]| && Join(ps, "-")[..|ps[0]|] == ps[0]
  {
  }

  /** The slug contains only lowercase alphanumerics and `-`, with no leading, trailing or doubled `-`. */
  lemma SlugIsWellFormed(text: string)
    ensures IsSlug(IntoSlug(text))
  {
    var m := MapChars(text);
    forall i | 0 <= i < |m| ensures IsSlugAlphanumeric(m[i]) || m[i] == '-' {
      assert m[i] == SlugChar(text[i]);
    }
    SplitPiecesAlphanumeric(m);
    JoinIsSlug(NonEmpty(Split(m, '-')));
  }

  // ---------------------------------------------------------------------
  // The alphanumerics survive, lowercased and in order

  lemma {:induction false} DropDashesAppend(a: string, b: string)
    ensures DropDashes(a + b) == DropDashes(a) + DropDashes(b)
  {
    if a == [] {
      assert a + b == b;
    } else {
      assert (a + b)[0] == a[0];
      assert (a + b)[1..] == a[1..] + b;
      DropDashesAppend(a[1..], b);
    }
  }

  /** Removing dashes around one `-` removes that `-` and keeps both sides. */
  lemma {:induction false} DropDashesAround(a: string, b: string)
    ensures DropDashes(a + "-" + b) == DropDashes(a) + DropDashes(b)
  {
    DropDashesAppend(a + "-", b);
    DropDashesAppend(a, "-");
    assert DropDashes("-") == [];
  }

  lemma {:induction false} DropDashesOfDashFree(p: string)
    requires '-' !in p
    ensures DropDashes(p) == p
  {
    if p != [] {
      assert p[0] in p;
      assert forall c :: c in p[1..] ==> c in p;
      DropDashesOfDashFree(p[1..]);
    }
  }

  lemma {:induction false} MapCharsKeepsAlphanumerics(s: string)
    ensures DropDashes(MapChars(s)) == LowerAlphanumerics(s)
  {
    if s != [] {
      var m := MapChars(s);
      assert m == [SlugChar(s[0])] + MapChars(s[1..]);
      DropDashesAppend([SlugChar(s[0])], MapChars(s[1..]));
      MapCharsKeepsAlphanumerics(s[1..]);
    }
  }

  lemma {:induction false} ConcatSplit(s: string)
    ensures Concat(Split(s, '-')) == DropDashes(s)
  {
    var i := IndexOf(s, '-');
    var w := s[..i];
    assert '-' !in w by {
      assert forall j :: 0 <= j < |w| ==> w[j] == s[j];
    }
    DropDashesOfDashFree(w);
    if i < |s| {
      var rest := s[i + 1..];
      assert Split(s, '-') == [w] + Split(rest, '-');
      ConcatSplit(rest);
      assert s == w + "-" + rest;
      assert Concat([w] + Split(rest, '-')) == w + Concat(Split(rest, '-')) by {
        assert ([w] + Split(rest, '-'))[1..] == Split(rest, '-');
      }
      DropDashesAround(w, rest);
    } else {
      assert Split(s, '-') == [s] && s == w;
      assert Concat([s]) == s + Concat([]);
    }
  }

  lemma {:induction false} ConcatNonEmpty(ps: seq<string>)
    ensures Concat(NonEmpty(ps)) == Concat(ps)
  {
    if ps != [] {
      ConcatNonEmpty(ps[1..]);
      if ps[0] != [] {
        assert ([ps[0]] + NonEmpty(ps[1..]))[1..] == NonEmpty(ps[1..]);
      }
    }
  }

  lemma {:induction false} DropDashesJoin(ps: seq<string>)
    requires forall k :: 0 <= k < |ps| ==> '-' !in ps[k]
    ensures DropDashes(Join(ps, "-")) == Concat(ps)
  {
    if ps != [] {
      DropDashesOfDashFree(ps[0]);
      if |ps| == 1 {
        assert Concat(ps) == ps[0] + Concat([]);
      } else {
        DropDashesJoin(ps[1..]);
        assert Join(ps, "-") == ps[0] + "-" + Join(ps[1..], "-");
        DropDashesAround(ps[0], Join(ps[1..], "-"));
        assert Concat(ps) == ps[0] + Concat(ps[1..]);
      }
    }
  }

  /** The alphanumeric characters of the text appear in the slug lowercased and in the same order, and nothing else but `-` does. */
  lemma SlugKeepsAlphanumerics(text: string)
    ensures DropDashes(IntoSlug(text)) == LowerAlphanumerics(text)
  {
    var m := MapChars(text);
    var ps := NonEmpty(Split(m, '-'));
    forall i | 0 <= i < |m| ensures IsSlugAlphanumeric(m[i]) || m[i] == '-' {
      assert m[i] == SlugChar(text[i]);
    }
    SplitPiecesAlphanumeric(m);
    forall k | 0 <= k < |ps| ensures '-' !in ps[k] {
      assert AllSlugAlphanumeric(ps[k]);
    }
    DropDashesJoin(ps);
    ConcatNonEmpty(Split(m, '-'));
    ConcatSplit(m);
    MapCharsKeepsAlphanumerics(text);
  }

  lemma {:induction false} LowerAlphanumericsEmpty(s: string)
    ensures LowerAlphanumerics(s) == [] <==> forall i :: 0 <= i < |s| ==> !IsAsciiAlphanumeric(s[i])
  {
    if s != [] {
      LowerAlphanumericsEmpty(s[1..]);
      assert forall i :: 1 <= i < |s| ==> s[i] == s[1..][i - 1];
    }
  }

  /** The slug is empty exactly when the text has no alphanumeric character. */
  lemma SlugEmptyIffNoAlphanumeric(text: string)
    ensures IntoSlug(text) == [] <==> forall i :: 0 <= i < |text| ==> !IsAsciiAlphanumeric(text[i])
  {
    var t := IntoSlug(text);
    SlugKeepsAlphanumerics(text);
    LowerAlphanumericsEmpty(text);
    if t != [] {
      SlugIsWellFormed(text);
      assert t == [t[0]] + t[1..];
      DropDashesAppend([t[0]], t[1..]);
    }
  }

  // ---------------------------------------------------------------------
  // Idempotence

  lemma {:induction false} JoinSplit(s: string, sep: char)
    ensures Join(Split(s, sep), [sep]) == s
  {
    var i := IndexOf(s, sep);
    if i < |s| {
      JoinSplit(s[i + 1..], sep);
      assert ([s[..i]] + Split(s[i + 1..], sep))[1..] == Split(s[i + 1..], sep);
      assert s == s[..i] + [sep] + s[i + 1..];
    }
  }

  /** Splitting a string without stray dashes yields no empty piece. */
  lemma {:induction false} SplitNoEmptyPiece(t: string)
    requires t != [] && NoStrayDash(t)
    ensures forall k :: 0 <= k < |Split(t, '-')| ==> Split(t, '-')[k] != []
    decreases |t|
  {
    var i := IndexOf(t, '-');
    if i < |t| {
      assert 0 < i < |t| - 1;
      var u := t[i + 1..];
      assert NoStrayDash(u) by {
        assert forall j :: 0 <= j < |u| ==> u[j] == t[j + i + 1];
      }
      SplitNoEmptyPiece(u);
    }
  }

  lemma {:induction false} NonEmptyKeepsNonEmpty(ps: seq<string>)
    requires forall k :: 0 <= k < |ps| ==> ps[k] != []
    ensures NonEmpty(ps) == ps
  {
    if ps != [] {
      NonEmptyKeepsNonEmpty(ps[1..]);
    }
  }

  /** A well-formed slug is its own slug. */
  lemma {:induction false} SlugOfSlug(t: string)
    requires IsSlug(t)
    ensures IntoSlug(t) == t
  {
    var m := MapChars(t);
    assert m == t by {
      forall i | 0 <= i < |t| ensures m[i] == t[i] {
        assert m[i] == SlugChar(t[i]);
      }
    }
    if t != [] {
      SplitNoEmptyPiece(t);
      NonEmptyKeepsNonEmpty(Split(t, '-'));
    }
    JoinSplit(t, '-');
  }

  /** `into_slug(into_slug(x)) == into_slug(x)`. */
  lemma SlugIdempotent(text: string)
    ensures IntoSlug(IntoSlug(text)) == IntoSlug(text)
  {
    SlugIsWellFormed(text);
    SlugOfSlug(IntoSlug(text));
  }

  // ---------------------------------------------------------------------
  // The unit-test examples of utils.rs

  /** A dash-free piece splits to itself. */
  lemma SplitWord(p: string)
    requires '-' !in p
    ensures Split(p, '-') == [p]
  {
    assert IndexOf(p, '-') == |p|;
  }

  /** A dash-free piece followed by `-` splits off as the first piece. */
  lemma SplitAfterWord(p: string, rest: string)
    requires '-' !in p
    ensures Split(p + "-" + rest, '-') == [p] + Split(rest, '-')
  {
    var s := p + "-" + rest;
    assert forall j :: 0 <= j < |p| ==> s[j] == p[j] && p[j] in p;
    var i := IndexOf(s, '-');
    assert s[|p|] == '-';
    assert s[..|p|] == p && s[|p| + 1..] == rest;
  }

  lemma SplitLeadingDash(rest: string)
    ensures Split("-" + rest, '-') == [""] + Split(rest, '-')
  {
    assert ("-" + rest)[1..] == rest;
  }

  /** A run of dashes in front of the text only adds empty pieces, which the filter drops. */
  lemma {:induction false} NonEmptySplitDashRun(run: string, b: string)
    requires forall j :: 0 <= j < |run| ==> run[j] == '-'
    ensures NonEmpty(Split(run + b, '-')) == NonEmpty(Split(b, '-'))
    decreases |run|
  {
    if run != [] {
      var tail := run[1..];
      assert run + b == "-" + (tail + b);
      SplitLeadingDash(tail + b);
      assert ([""] + Split(tail + b, '-'))[1..] == Split(tail + b, '-');
      NonEmptySplitDashRun(tail, b);
    } else {
      assert run + b == b;
    }
  }

  /** Text whose letters map to two words with a run of dashes between them slugs to the two words joined by one dash. */
  lemma SlugOfTwoWords(text: string, a: string, dashes: string, b: string)
    requires '-' !in a && '-' !in b && a != [] && b != []
    requires dashes != [] && forall j :: 0 <= j < |dashes| ==> dashes[j] == '-'
    requires MapChars(text) == a + dashes + b
    ensures IntoSlug(text) == a + "-" + b
  {
    var run := dashes[1..];
    assert a + dashes + b == a + "-" + (run + b);
    SplitAfterWord(a, run + b);
    var rest := Split(run + b, '-');
    assert NonEmpty([a] + rest) == [a] + NonEmpty(rest) by {
      assert ([a] + rest)[1..] == rest;
    }
    NonEmptySplitDashRun(run, b);
    SplitWord(b);
    assert NonEmpty([b]) == [b] by {
      assert [b][1..] == [];
    }
    assert Join([a, b], "-") == a + "-" + Join([b], "-");
  }

  lemma {:induction false} MapCharsAppend(a: string, b: string)
    ensures MapChars(a + b) == MapChars(a) + MapChars(b)
  {
    forall i | 0 <= i < |a + b| ensures MapChars(a + b)[i] == (MapChars(a) + MapChars(b))[i] {
      if i < |a| {
        assert (a + b)[i] == a[i];
      } else {
        assert (a + b)[i] == b[i - |a|];
      }
    }
  }

  /** The slug of text made of a word, a run of separators and a word, given how each run maps. */
  lemma SlugOfThreeRuns(text: string, a: string, sep: string, b: string, la: string, dashes: string, lb: string)
    requires text == a + sep + b
    requires MapChars(a) == la && MapChars(sep) == dashes && MapChars(b) == lb
    requires forall j :: 0 <= j < |la| ==> la[j] != '-'
    requires forall j :: 0 <= j < |lb| ==> lb[j] != '-'
    requires la != [] && lb != []
    requires dashes != [] && forall j :: 0 <= j < |dashes| ==> dashes[j] == '-'
    ensures IntoSlug(text) == la + "-" + lb
  {
    assert '-' !in la && '-' !in lb;
    MapCharsAppend(a + sep, b);
    MapCharsAppend(a, sep);
    SlugOfTwoWords(text, la, dashes, lb);
  }

  /** How `"Hello"` maps: it is a word, lowercased. */
  lemma HelloWorldFirst(w: string, m: string)
    requires w == "Hello" && m == "hello"
    ensures MapChars(w) == m
  {
  }

  /** How `" "` maps: every character is a separator. */
  lemma HelloWorldSeparator(w: string, m: string)
    requires w == " " && m == "-"
    ensures MapChars(w) == m
  {
  }

  /** How `"World"` maps: it is a word, lowercased. */
  lemma HelloWorldSecond(w: string, m: string)
    requires w == "World" && m == "world"
    ensures MapChars(w) == m
  {
  }

  /** The three runs of `"Hello World"` and what each maps to. */
  lemma HelloWorldRuns(a: string, sep: string, b: string, la: string, dashes: string, lb: string)
    requires a == "Hello" && sep == " " && b == "World"
    requires la == "hello" && dashes == "-" && lb == "world"
    ensures MapChars(a) == la && MapChars(sep) == dashes && MapChars(b) == lb
  {
    HelloWorldFirst(a, la);
    HelloWorldSeparator(sep, dashes);
    HelloWorldSecond(b, lb);
  }

  /** The two words of `"Hello World"` hold no dash and join to `"hello-world"`. */
  lemma HelloWorldWords(la: string, dashes: string, lb: string)
    requires la == "hello" && dashes == "-" && lb == "world"
    ensures forall j :: 0 <= j < |la| ==> la[j] != '-'
    ensures forall j :: 0 <= j < |lb| ==> lb[j] != '-'
    ensures la != [] && lb != []
    ensures dashes != [] && forall j :: 0 <= j < |dashes| ==> dashes[j] == '-'
    ensures la + "-" + lb == "hello-world"
  {
  }

  /** `into_slug("Hello World")` is `"hello-world"`. */
  lemma SlugExampleHelloWorld(text: string)
    requires text == "Hello World"
    ensures IntoSlug(text) == "hello-world"
  {
    var a, sep, b := text[..5], text[5..6], text[6..];
    assert text == a + sep + b;
    HelloWorldRuns(a, sep, b, "hello", "-", "world");
    HelloWorldWords("hello", "-", "world");
    SlugOfThreeRuns(text, a, sep, b, "hello", "-", "world");
  }

  /** How `"Special"` maps: it is a word, lowercased. */
  lemma SpecialCharactersFirst(w: string, m: string)
    requires w == "Special" && m == "special"
    ensures MapChars(w) == m
  {
  }

  /** How `"!@#"` maps: every character is a separator. */
  lemma SpecialCharactersSeparator(w: string, m: string)
    requires w == "!@#" && m == "---"
    ensures MapChars(w) == m
  {
  }

  /** How `"Characters"` maps: it is a word, lowercased. */
  lemma SpecialCharactersSecond(w: string, m: string)
    requires w == "Characters" && m == "characters"
    ensures MapChars(w) == m
  {
  }

  /** The three runs of `"Special!@#Characters"` and what each maps to. */
  lemma SpecialCharactersRuns(a: string, sep: string, b: string, la: string, dashes: string, lb: string)
    requires a == "Special" && sep == "!@#" && b == "Characters"
    requires la == "special" && dashes == "---" && lb == "characters"
    ensures MapChars(a) == la && MapChars(sep) == dashes && MapChars(b) == lb
  {
    SpecialCharactersFirst(a, la);
    SpecialCharactersSeparator(sep, dashes);
    SpecialCharactersSecond(b, lb);
  }

  /** The two words of `"Special!@#Characters"` hold no dash and join to `"special-characters"`. */
  lemma SpecialCharactersWords(la: string, dashes: string, lb: string)
    requires la == "special" && dashes == "---" && lb == "characters"
    ensures forall j :: 0 <= j < |la| ==> la[j] != '-'
    ensures forall j :: 0 <= j < |lb| ==> lb[j] != '-'
    ensures la != [] && lb != []
    ensures dashes != [] && forall j :: 0 <= j < |dashes| ==> dashes[j] == '-'
    ensures la + "-" + lb == "special-characters"
  {
  }

  /** `into_slug("Special!@#Characters")` is `"special-characters"`. */
  lemma SlugExampleSpecialCharacters(text: string)
    requires text == "Special!@#Characters"
    ensures IntoSlug(text) == "special-characters"
  {
    var a, sep, b := text[..7], text[7..10], text[10..];
    assert text == a + sep + b;
    SpecialCharactersRuns(a, sep, b, "special", "---", "characters");
    SpecialCharactersWords("special", "---", "characters");
    SlugOfThreeRuns(text, a, sep, b, "special", "---", "characters");
  }

  /** How `"Multiple"` maps: it is a word, lowercased. */
  lemma MultipleSpacesFirst(w: string, m: string)
    requires w == "Multiple" && m == "multiple"
    ensures MapChars(w) == m
  {
  }

  /** How `"   "` maps: every character is a separator. */
  lemma MultipleSpacesSeparator(w: string, m: string)
    requires w == "   " && m == "---"
    ensures MapChars(w) == m
  {
  }

  /** How `"Spaces"` maps: it is a word, lowercased. */
  lemma MultipleSpacesSecond(w: string, m: string)
    requires w == "Spaces" && m == "spaces"
    ensures MapChars(w) == m
  {
  }

  /** The three runs of `"Multiple   Spaces"` and what each maps to. */
  lemma MultipleSpacesRuns(a: string, sep: string, b: string, la: string, dashes: string, lb: string)
    requires a == "Multiple" && sep == "   " && b == "Spaces"
    requires la == "multiple" && dashes == "---" && lb == "spaces"
    ensures MapChars(a) == la && MapChars(sep) == dashes && MapChars(b) == lb
  {
    MultipleSpacesFirst(a, la);
    MultipleSpacesSeparator(sep, dashes);
    MultipleSpacesSecond(b, lb);
  }

  /** The two words of `"Multiple   Spaces"` hold no dash and join to `"multiple-spaces"`. */
  lemma MultipleSpacesWords(la: string, dashes: string, lb: string)
    requires la == "multiple" && dashes == "---" && lb == "spaces"
    ensures forall j :: 0 <= j < |la| ==> la[j] != '-'
    ensures forall j :: 0 <= j < |lb| ==> lb[j] != '-'
    ensures la != [] && lb != []
    ensures dashes != [] && forall j :: 0 <= j < |dashes| ==> dashes[j] == '-'
    ensures la + "-" + lb == "multiple-spaces"
  {
  }

  /** `into_slug("Multiple   Spaces")` is `"multiple-spaces"`: a run of separators becomes one dash. */
  lemma SlugExampleMultipleSpaces(text: string)
    requires text == "Multiple   Spaces"
    ensures IntoSlug(text) == "multiple-spaces"
  {
    var a, sep, b := text[..8], text[8..11], text[11..];
    assert text == a + sep + b;
    MultipleSpacesRuns(a, sep, b, "multiple", "---", "spaces");
    MultipleSpacesWords("multiple", "---", "spaces");
    SlugOfThreeRuns(text, a, sep, b, "multiple", "---", "spaces");
  }

  /** Text without a letter or digit slugs to the empty string. */
  lemma SlugExamplePunctuation(text: string)
    requires text == "!!!"
    ensures IntoSlug(text) == ""
  {
    SlugEmptyIffNoAlphanumeric(text);
  }

  lemma SlugExampleEmpty(text: string)
    requires text == ""
    ensures IntoSlug(text) == ""
  {
    SlugEmptyIffNoAlphanumeric(text);
  }

  /** Digits are already a slug. */
  lemma SlugExampleDigits(text: string)
    requires text == "123"
    ensures IntoSlug(text) == "123"
  {
    assert IsSlug(text);
    SlugOfSlug(text);
  }
}
