/**
 * Extraction of the document text: page texts are joined in page order
 * with no separator, then every whitespace run is collapsed to one space
 * and the ends are trimmed (Python's `" ".join(s.split())`).
 */
module Text {
  import opened Wrappers

  /** The characters Python's `str.isspace` accepts, which are the ones
      `str.split()` and `str.strip()` (without arguments) treat as whitespace. */
  predicate IsSpace(c: char)
  {
    c == ' ' || ('\t' <= c <= '\r') || ('\U{1C}' <= c <= '\U{1F}')
    || c == '\U{85}' || c == '\U{A0}' || c == '\U{1680}'
    || ('\U{2000}' <= c <= '\U{200A}') || c == '\U{2028}' || c == '\U{2029}'
    || c == '\U{202F}' || c == '\U{205F}' || c == '\U{3000}'
  }

  /** No character of `s` is whitespace. */
  predicate NoSpace(s: string)
  {
    forall i :: 0 <= i < |s| ==> !IsSpace(s[i])
  }

  /** Every character of `s` is whitespace: `s.strip()` is empty. */
  predicate Blank(s: string)
  {
    forall i :: 0 <= i < |s| ==> IsSpace(s[i])
  }

  /** The shape `" ".join(s.split())` promises: no whitespace at either end,
      the only whitespace character left is the ASCII space, and no two
      whitespace characters are adjacent. */
  ghost predicate Normalized(t: string)
  {
    (t != [] ==> !IsSpace(t[0]) && !IsSpace(t[|t| - 1]))
    && (forall i :: 0 <= i < |t| && IsSpace(t[i]) ==> t[i] == ' ')
    && (forall i :: 0 <= i < |t| - 1 ==> !(IsSpace(t[i]) && IsSpace(t[i + 1])))
  }

  /** A word as `str.split()` yields it: non-empty and free of whitespace. */
  ghost predicate IsWord(w: string)
  {
    w != [] && NoSpace(w)
  }

  ghost predicate AllWords(ws: seq<string>)
  {
    forall j :: 0 <= j < |ws| ==> IsWord(ws[j])
  }

  /** `s` with its leading whitespace removed. */
  function SkipSpaces(s: string): (r: string)
    ensures |r| <= |s|
    ensures r == [] || !IsSpace(r[0])
  {
    if s == [] || !IsSpace(s[0]) then s else SkipSpaces(s[1..])
  }

  /** The longest prefix of `s` that holds no whitespace. */
  function LeadingWord(s: string): (w: string)
    ensures |w| <= |s|
    ensures s != [] && !IsSpace(s[0]) ==> |w| > 0
  {
    if s == [] || IsSpace(s[0]) then [] else [s[0]] + LeadingWord(s[1..])
  }

  /** Python's `s.split()` with no argument: the maximal whitespace-free runs, in order. */
  function Words(s: string): seq<string>
    decreases |s|
  {
    var t := SkipSpaces(s);
    if t == [] then []
    else
      var w := LeadingWord(t);
      [w] + Words(t[|w|..])
  }

  /** Python's `" ".join(ws)`. */
  function JoinWords(ws: seq<string>): string
  {
    if ws == [] then []
    else if |ws| == 1 then ws[0]
    else ws[0] + " " + JoinWords(ws[1..])
  }

  /** The whitespace normalisation of `pull_text_from_pdf`. */
  function Normalize(s: string): string
  {
    JoinWords(Words(s))
  }

  /** `s` with every whitespace character dropped. */
  function RemoveSpaces(s: string): string
  {
    if s == [] then []
    else (if IsSpace(s[0]) then [] else [s[0]]) + RemoveSpaces(s[1..])
  }

  /** Concatenation of a sequence of strings. */
  function Flatten(ws: seq<string>): string
  {
    if ws == [] then [] else ws[0] + Flatten(ws[1..])
  }

  /** `page.extract_text() or ""`: a page that yields no text contributes the empty string. */
  function PageText(page: Option<string>): string
  {
    match page
    case None => ""
    case Some(t) => t
  }

  /** All page texts, in page order, with no separator. */
  function JoinPages(pages: seq<Option<string>>): string
  {
    if pages == [] then [] else JoinPages(pages[..|pages| - 1]) + PageText(pages[|pages| - 1])
  }

  /** `pull_text_from_pdf` with the PDF parser abstracted away: `pages[i]` is
      what the parser extracted from page `i` (`None` when it found no text). */
  method PullTextFromPdf(pages: seq<Option<string>>) returns (text: string)
    ensures text == Normalize(JoinPages(pages))
    ensures Normalized(text)
    ensures RemoveSpaces(text) == RemoveSpaces(JoinPages(pages))
  {
    var allText := "";
    for i := 0 to |pages|
      invariant allText == JoinPages(pages[..i])
    {
      assert pages[..i + 1][..i] == pages[..i];
      allText := allText + PageText(pages[i]);
    }
    assert pages[..|pages|] == pages;
    text := Normalize(allText);
    NormalizeIsNormalized(allText);
    NormalizeKeepsText(allText);
  }

  // ---------------------------------------------------------------------
  // Page joining

  /** Joining is homomorphic: the text of `a + b` is the text of `a` followed by that of `b`. */
  lemma {:induction false} JoinPagesAppend(a: seq<Option<string>>, b: seq<Option<string>>)
    ensures JoinPages(a + b) == JoinPages(a) + JoinPages(b)
    decreases |b|
  {
    if b == [] {
      assert a + b == a;
    } else {
      var b' := b[..|b| - 1];
      assert (a + b)[..|a + b| - 1] == a + b';
      JoinPagesAppend(a, b');
    }
  }

  /** Each page's text lands right after the text of the pages before it. */
  lemma JoinPagesInOrder(a: seq<Option<string>>, page: Option<string>, b: seq<Option<string>>)
    ensures JoinPages(a + [page] + b) == JoinPages(a) + PageText(page) + JoinPages(b)
  {
    JoinPagesAppend(a + [page], b);
    JoinPagesAppend(a, [page]);
    assert JoinPages([page]) == PageText(page) by {
      assert [page][..0] == [];
    }
  }

  /** A page the parser found no text on contributes the empty string. */
  lemma PageWithoutTextAddsNothing(a: seq<Option<string>>, b: seq<Option<string>>)
    ensures JoinPages(a + [None] + b) == JoinPages(a + b)
  {
    JoinPagesInOrder(a, None, b);
    JoinPagesAppend(a, b);
  }

  // ---------------------------------------------------------------------
  // Splitting into words

  /** What `SkipSpaces` drops is a blank prefix; what it keeps is the rest. */
  lemma {:induction false} SkipSpacesSplits(s: string)
    ensures var r := SkipSpaces(s); r == s[|s| - |r|..] && Blank(s[..|s| - |r|])
    decreases |s|
  {
    if s != [] && IsSpace(s[0]) {
      SkipSpacesSplits(s[1..]);
      var r := SkipSpaces(s);
      assert s[1..][..|s[1..]| - |r|] == s[1..|s| - |r|];
    }
  }

  /** `LeadingWord` is a whitespace-free prefix followed by whitespace or the end. */
  lemma {:induction false} LeadingWordSplits(s: string)
    ensures var w := LeadingWord(s); w == s[..|w|] && NoSpace(w) && (|w| < |s| ==> IsSpace(s[|w|]))
    decreases |s|
  {
    if s != [] && !IsSpace(s[0]) {
      LeadingWordSplits(s[1..]);
      var w := LeadingWord(s[1..]);
      assert [s[0]] + w == s[..|w| + 1];
    }
  }

  lemma {:induction false} WordsAreWords(s: string)
    ensures AllWords(Words(s))
    decreases |s|
  {
    var t := SkipSpaces(s);
    if t != [] {
      var w := LeadingWord(t);
      LeadingWordSplits(t);
      WordsAreWords(t[|w|..]);
    }
  }

  /** `s.split()` is empty exactly when `s` is blank. */
  lemma WordsEmptyIffBlank(s: string)
    ensures Words(s) == [] <==> Blank(s)
  {
    var t := SkipSpaces(s);
    SkipSpacesSplits(s);
    assert s[..|s| - |t|] == s ==> t == [];
    if t != [] {
      assert !IsSpace(s[|s| - |t|]);
    }
  }

  /** A leading whitespace character does not change the split. */
  lemma WordsAfterSpace(s: string)
    requires s != [] && IsSpace(s[0])
    ensures Words(s) == Words(s[1..])
  {
  }

  /** A string that starts with a non-space splits into its leading word and
      the split of what follows it. */
  lemma WordsAfterWord(s: string)
    requires s != [] && !IsSpace(s[0])
    ensures Words(s) == [LeadingWord(s)] + Words(s[|LeadingWord(s)|..])
  {
  }

  /** A single word splits into itself. */
  lemma WordsOfWord(w: string)
    requires IsWord(w)
    ensures Words(w) == [w]
  {
    LeadingWordOfWord(w, []);
    assert w + [] == w;
    WordsAfterWord(w);
    assert w[|w|..] == [];
  }

  /** A whitespace character separates: the split of `x + [c] + y` is the split
      of `x` followed by that of `y`. With `WordsOfWord` and `Words("") == []`
      this fixes `s.split()` on every string. */
  lemma {:induction false} WordsSplitAtSpace(x: string, c: char, y: string)
    requires IsSpace(c)
    ensures Words(x + [c] + y) == Words(x) + Words(y)
    decreases |x|
  {
    var s := x + [c] + y;
    if x == [] {
      assert s == [c] + y;
      WordsAfterSpace(s);
      assert s[1..] == y;
    } else if IsSpace(x[0]) {
      WordsAfterSpace(s);
      WordsAfterSpace(x);
      assert s[1..] == x[1..] + [c] + y;
      WordsSplitAtSpace(x[1..], c, y);
    } else {
      var w := LeadingWord(x);
      var rest := x[|w|..];
      LeadingWordSplits(x);
      assert x == w + rest;
      assert s == w + (rest + [c] + y);
      LeadingWordOfWord(w, rest + [c] + y);
      WordsAfterWord(s);
      WordsAfterWord(x);
      assert s[|w|..] == rest + [c] + y;
      WordsSplitAtSpace(rest, c, y);
    }
  }

  lemma {:induction false} RemoveSpacesAppend(a: string, b: string)
    ensures RemoveSpaces(a + b) == RemoveSpaces(a) + RemoveSpaces(b)
    decreases |a|
  {
    if a == [] {
      assert a + b == b;
    } else {
      assert (a + b)[1..] == a[1..] + b;
      RemoveSpacesAppend(a[1..], b);
    }
  }

  lemma {:induction false} RemoveSpacesOfBlank(s: string)
    requires Blank(s)
    ensures RemoveSpaces(s) == []
    decreases |s|
  {
    if s != [] {
      RemoveSpacesOfBlank(s[1..]);
    }
  }

  lemma {:induction false} RemoveSpacesOfWord(w: string)
    requires NoSpace(w)
    ensures RemoveSpaces(w) == w
    decreases |w|
  {
    if w != [] {
      RemoveSpacesOfWord(w[1..]);
    }
  }

  /** The words of `s`, glued together, are exactly the non-whitespace characters of `s`. */
  lemma {:induction false} FlattenWords(s: string)
    ensures Flatten(Words(s)) == RemoveSpaces(s)
    decreases |s|
  {
    var t := SkipSpaces(s);
    assert RemoveSpaces(s) == RemoveSpaces(t) by {
      SkipSpacesSplits(s);
      var skipped := s[..|s| - |t|];
      assert s == skipped + t;
      RemoveSpacesAppend(skipped, t);
      RemoveSpacesOfBlank(skipped);
    }
    if t != [] {
      var w := LeadingWord(t);
      var rest := t[|w|..];
      LeadingWordSplits(t);
      FlattenWords(rest);
      FlattenFirstWord(t, w, rest, Words(rest));
      assert Words(s) == [w] + Words(rest);
    } else {
      assert Words(s) == [];
    }
  }

  lemma FlattenFirstWord(t: string, w: string, rest: string, restWords: seq<string>)
    requires NoSpace(w) && t == w + rest
    requires Flatten(restWords) == RemoveSpaces(rest)
    ensures Flatten([w] + restWords) == RemoveSpaces(t)
  {
    RemoveSpacesAppend(w, rest);
    RemoveSpacesOfWord(w);
    FlattenCons(w, restWords);
  }

  lemma FlattenCons(w: string, ws: seq<string>)
    ensures Flatten([w] + ws) == w + Flatten(ws)
  {
    assert ([w] + ws)[1..] == ws;
  }

  // ---------------------------------------------------------------------
  // Joining words

  lemma {:induction false} JoinWordsShape(ws: seq<string>)
    requires AllWords(ws)
    ensures Normalized(JoinWords(ws))
    ensures ws != [] ==> JoinWords(ws) != [] && JoinWords(ws)[0] == ws[0][0]
    decreases |ws|
  {
    if |ws| > 1 {
      var w, rest := ws[0], JoinWords(ws[1..]);
      JoinWordsShape(ws[1..]);
      var t := w + " " + rest;
      assert t[|w| + 1..] == rest;
      forall i | 0 <= i < |t| - 1
        ensures !(IsSpace(t[i]) && IsSpace(t[i + 1]))
      {
        if i < |w| - 1 {
          assert t[i] == w[i];
        } else if i == |w| - 1 {
          assert t[i] == w[i];
        } else if i == |w| {
          assert t[i + 1] == rest[0];
        } else {
          assert t[i] == rest[i - |w| - 1] && t[i + 1] == rest[i - |w|];
        }
      }
      forall i | 0 <= i < |t|
        ensures IsSpace(t[i]) ==> t[i] == ' '
      {
        if i < |w| {
          assert t[i] == w[i];
        } else if i > |w| {
          assert t[i] == rest[i - |w| - 1];
        }
      }
    }
  }

  /** Removing whitespace from `" ".join(ws)` gives the words glued together. */
  lemma {:induction false} RemoveSpacesOfJoin(ws: seq<string>)
    requires AllWords(ws)
    ensures RemoveSpaces(JoinWords(ws)) == Flatten(ws)
    decreases |ws|
  {
    if ws == [] {
    } else if |ws| == 1 {
      RemoveSpacesOfWord(ws[0]);
      assert Flatten(ws[1..]) == [];
    } else {
      RemoveSpacesOfJoin(ws[1..]);
      RemoveSpacesAppend(ws[0] + " ", JoinWords(ws[1..]));
      RemoveSpacesAppend(ws[0], " ");
      RemoveSpacesOfWord(ws[0]);
      assert RemoveSpaces(" ") == [];
    }
  }

  lemma {:induction false} LeadingWordOfWord(w: string, rest: string)
    requires NoSpace(w)
    requires rest == [] || IsSpace(rest[0])
    ensures LeadingWord(w + rest) == w
    decreases |w|
  {
    if w == [] {
      assert w + rest == rest;
    } else {
      assert (w + rest)[1..] == w[1..] + rest;
      LeadingWordOfWord(w[1..], rest);
      assert [w[0]] + w[1..] == w;
    }
  }

  /** Splitting `" ".join(ws)` gives `ws` back, when `ws` are words. */
  lemma {:induction false} WordsOfJoin(ws: seq<string>)
    requires AllWords(ws)
    ensures Words(JoinWords(ws)) == ws
    decreases |ws|
  {
    if ws == [] {
    } else if |ws| == 1 {
      var w := ws[0];
      assert SkipSpaces(w) == w;
      LeadingWordOfWord(w, []);
      assert w + [] == w;
      assert w[|w|..] == [];
    } else {
      var w, rest := ws[0], JoinWords(ws[1..]);
      JoinWordsShape(ws[1..]);
      var t := w + " " + rest;
      assert SkipSpaces(t) == t;
      assert t == w + (" " + rest);
      LeadingWordOfWord(w, " " + rest);
      assert t[|w|..] == " " + rest;
      assert SkipSpaces(" " + rest) == rest by {
        assert (" " + rest)[1..] == rest;
      }
      WordsOfJoin(ws[1..]);
    }
  }

  // ---------------------------------------------------------------------
  // The normalisation

  /** The result has no whitespace at its ends, only single ASCII spaces
      inside, and is empty exactly when the input is blank. */
  lemma NormalizeIsNormalized(s: string)
    ensures Normalized(Normalize(s))
    ensures Normalize(s) == [] <==> Blank(s)
  {
    WordsAreWords(s);
    JoinWordsShape(Words(s));
    WordsEmptyIffBlank(s);
  }

  /** The non-whitespace characters survive, in order: dropping whitespace
      from the input and from the output gives the same string. */
  lemma NormalizeKeepsText(s: string)
    ensures RemoveSpaces(Normalize(s)) == RemoveSpaces(s)
  {
    WordsAreWords(s);
    RemoveSpacesOfJoin(Words(s));
    FlattenWords(s);
  }

  /** The normalised text has the same words as the input, so every
      whitespace run became a single space and no word was split or merged. */
  lemma NormalizeKeepsWords(s: string)
    ensures Words(Normalize(s)) == Words(s)
  {
    WordsAreWords(s);
    WordsOfJoin(Words(s));
  }

  /** Normalising twice changes nothing. */
  lemma NormalizeIdempotent(s: string)
    ensures Normalize(Normalize(s)) == Normalize(s)
  {
    WordsAreWords(s);
    WordsOfJoin(Words(s));
  }
}
