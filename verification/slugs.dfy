/** Permalink slugs for blog posts: `generate_slug` of app.py.

    A slug is the title lower-cased, with every maximal run of characters
    that are neither letters nor digits (the regular-expression class
    `[\W_]`, so the underscore included) replaced by one hyphen, and then
    stripped of hyphens at both ends. */
module Slugs {

  /** A letter or a digit: a character outside the class `[\W_]`.
      Letters and digits are taken from ASCII here. The general lemmas below
      use the table only through `HyphenIsSeparator` and the contract of
      `Lower`; only the worked examples compute with it. */
  predicate IsAlnum(c: char) {
    'a' <= c <= 'z' || 'A' <= c <= 'Z' || '0' <= c <= '9'
  }

  /** `str.lower` on one character. */
  function Lower(c: char): (r: char)
    ensures IsAlnum(r) == IsAlnum(c)
    ensures !('A' <= r <= 'Z')
    ensures !IsAlnum(c) ==> r == c
    ensures IsAlnum(c) && !('A' <= c <= 'Z') ==> r == c
  {
    if 'A' <= c <= 'Z' then (c as int + 32) as char else c
  }

  /** The hyphen that replaces separator runs is itself a separator. */
  lemma HyphenIsSeparator()
    ensures !IsAlnum('-')
  {
  }

  /** `str.lower` on a string, character by character. */
  function Lowercase(s: string): (r: string)
    ensures |r| == |s|
    ensures forall i :: 0 <= i < |s| ==> r[i] == Lower(s[i])
  {
    seq(|s|, i requires 0 <= i < |s| => Lower(s[i]))
  }

  /** No character of `s` is a letter or a digit. */
  predicate NoAlnum(s: string) {
    forall i :: 0 <= i < |s| ==> !IsAlnum(s[i])
  }

  /** `s` without its leading run of separators (non-alphanumerics). */
  function DropSeparators(s: string): (r: string)
    ensures |r| <= |s| && r == s[|s| - |r|..]
    ensures r == [] || IsAlnum(r[0])
    ensures s != [] && !IsAlnum(s[0]) ==> |r| < |s|
    decreases |s|
  {
    if s != [] && !IsAlnum(s[0]) then DropSeparators(s[1..]) else s
  }

  /** `re.sub(r'[\W_]+', '-', s)`: scanning from the left, each maximal run
      of separators is replaced by a single hyphen; letters and digits are
      copied. */
  function ReplaceRuns(s: string): (r: string)
    ensures r == [] <==> s == []
    ensures s != [] ==> r[0] == (if IsAlnum(s[0]) then s[0] else '-')
    ensures forall i :: 0 <= i < |r| ==> r[i] == '-' || IsAlnum(r[i])
    ensures forall i :: 0 <= i < |r| - 1 ==> !(r[i] == '-' && r[i + 1] == '-')
    decreases |s|
  {
    HyphenIsSeparator();
    if s == [] then []
    else if IsAlnum(s[0]) then [s[0]] + ReplaceRuns(s[1..])
    else ['-'] + ReplaceRuns(DropSeparators(s))
  }

  /** `s.lstrip('-')`: the longest suffix that does not start with a
      hyphen; only hyphens are dropped. */
  function StripLeading(s: string): (r: string)
    ensures |r| <= |s| && r == s[|s| - |r|..]
    ensures forall k :: 0 <= k < |s| - |r| ==> s[k] == '-'
    ensures r == [] || r[0] != '-'
  {
    if s != [] && s[0] == '-' then StripLeading(s[1..]) else s
  }

  /** `s.rstrip('-')`: the longest prefix that does not end with a hyphen;
      only hyphens are dropped. */
  function StripTrailing(s: string): (r: string)
    ensures |r| <= |s| && r == s[..|r|]
    ensures forall k :: |r| <= k < |s| ==> s[k] == '-'
    ensures r == [] || r[|r| - 1] != '-'
  {
    if s != [] && s[|s| - 1] == '-' then StripTrailing(s[..|s| - 1]) else s
  }

  /** `s.strip('-')`: a middle part of `s` with hyphens at neither end,
      everything dropped around it being hyphens. */
  function Strip(s: string): (r: string)
    ensures r == [] || (r[0] != '-' && r[|r| - 1] != '-')
    ensures exists i :: 0 <= i <= |s| - |r| && r == s[i..][..|r|]
              && (forall k :: 0 <= k < i ==> s[k] == '-')
              && (forall k :: i + |r| <= k < |s| ==> s[k] == '-')
  {
    var l := StripLeading(s);
    var r := StripTrailing(l);
    var i := |s| - |l|;
    assert r == s[i..][..|r|];
    r
  }

  /** A character a slug may hold: a hyphen, or a letter or digit that
      lower-casing leaves alone. */
  predicate IsSlugChar(c: char) {
    c == '-' || (IsAlnum(c) && Lower(c) == c)
  }

  /** The shape of every slug: only slug characters, no hyphen at either
      end, and never two hyphens in a row. */
  predicate IsSlug(s: string) {
    && (forall i :: 0 <= i < |s| ==> IsSlugChar(s[i]))
    && (s != [] ==> s[0] != '-' && s[|s| - 1] != '-')
    && (forall i :: 0 <= i < |s| - 1 ==> !(s[i] == '-' && s[i + 1] == '-'))
  }

  /** `generate_slug(title)`. */
  function Slug(title: string): (r: string)
    ensures IsSlug(r)
  {
    StripReplaceRunsIsJoin(Lowercase(title));
    WordsOfLowercase(Lowercase(title));
    JoinWordsIsSlug(Words(Lowercase(title)));
    Strip(ReplaceRuns(Lowercase(title)))
  }

  // ---------------------------------------------------------------------
  // An independent description: the words of the title, joined by hyphens.
  // ---------------------------------------------------------------------

  /** The longest prefix of `s` made of letters and digits. */
  function Word(s: string): (r: string)
    ensures |r| <= |s| && r == s[..|r|]
    ensures forall i :: 0 <= i < |r| ==> IsAlnum(r[i])
    ensures |r| < |s| ==> !IsAlnum(s[|r|])
    ensures s != [] && IsAlnum(s[0]) ==> r != []
  {
    if s != [] && IsAlnum(s[0]) then [s[0]] + Word(s[1..]) else []
  }

  /** The maximal runs of letters and digits of `s`, in order. */
  function Words(s: string): (ws: seq<string>)
    decreases |s|
  {
    var rest := DropSeparators(s);
    if rest == [] then []
    else
      var w := Word(rest);
      [w] + Words(rest[|w|..])
  }

  /** The words, with one hyphen between neighbours. */
  function JoinWords(ws: seq<string>): string {
    if ws == [] then []
    else if |ws| == 1 then ws[0]
    else ws[0] + ['-'] + JoinWords(ws[1..])
  }

  /** A word as it occurs in a lower-cased title. */
  predicate IsWord(w: string) {
    w != [] && forall i :: 0 <= i < |w| ==> IsAlnum(w[i]) && Lower(w[i]) == w[i]
  }

  /** Only separators are dropped: a letter or digit at `i` survives. */
  lemma {:induction false} DropSeparatorsKeepsAlnum(s: string, i: nat)
    requires i < |s| && IsAlnum(s[i])
    ensures |DropSeparators(s)| >= |s| - i
  {
    if i > 0 && !IsAlnum(s[0]) {
      DropSeparatorsKeepsAlnum(s[1..], i - 1);
      assert DropSeparators(s) == DropSeparators(s[1..]);
    } else {
      assert IsAlnum(s[0]);
      assert DropSeparators(s) == s;
    }
  }

  /** Without letters and digits everything is dropped. */
  lemma {:induction false} DropSeparatorsNoAlnum(s: string)
    requires NoAlnum(s)
    ensures DropSeparators(s) == []
  {
    if s != [] {
      DropSeparatorsNoAlnum(s[1..]);
    }
  }

  lemma {:induction false} DropSeparatorsIdle(s: string)
    requires s == [] || IsAlnum(s[0])
    ensures DropSeparators(s) == s
  {
  }

  /** Leading separators do not change the words. */
  lemma {:induction false} WordsSkipSeparators(s: string)
    ensures Words(s) == Words(DropSeparators(s))
  {
    DropSeparatorsIdle(DropSeparators(s));
  }

  /** A string has no words exactly when it has no letter or digit. */
  lemma {:induction false} WordsEmptyIff(s: string)
    ensures Words(s) == [] <==> NoAlnum(s)
  {
    if NoAlnum(s) {
      DropSeparatorsNoAlnum(s);
    } else {
      var i :| 0 <= i < |s| && IsAlnum(s[i]);
      DropSeparatorsKeepsAlnum(s, i);
    }
  }

  /** With no letter or digit, the substitution leaves at most one hyphen. */
  lemma {:induction false} NoAlnumReplaceRuns(s: string)
    requires NoAlnum(s)
    ensures ReplaceRuns(s) == [] || ReplaceRuns(s) == ['-']
  {
    DropSeparatorsNoAlnum(s);
  }

  /** A leading word is copied as it is. */
  lemma {:induction false} ReplaceRunsCopiesWord(s: string)
    ensures ReplaceRuns(s) == Word(s) + ReplaceRuns(s[|Word(s)|..])
    decreases |s|
  {
    if s != [] && IsAlnum(s[0]) {
      var t := s[1..];
      var v := Word(t);
      var w := Word(s);
      assert w == [s[0]] + v;
      assert t[|v|..] == s[|w|..];
      calc {
        ReplaceRuns(s);
        [s[0]] + ReplaceRuns(t);
        { ReplaceRunsCopiesWord(t); }
        [s[0]] + (v + ReplaceRuns(t[|v|..]));
        { AppendAssoc([s[0]], v, ReplaceRuns(t[|v|..])); }
        w + ReplaceRuns(s[|w|..]);
      }
    } else {
      assert Word(s) == [] && s[0..] == s;
    }
  }

  lemma {:induction false} StripTrailingAppend(x: string, y: string)
    requires y != [] && y[0] != '-'
    ensures StripTrailing(x + y) == x + StripTrailing(y)
    decreases |y|
  {
    if y[|y| - 1] == '-' {
      assert (x + y)[..|x + y| - 1] == x + y[..|y| - 1];
      StripTrailingAppend(x, y[..|y| - 1]);
    }
  }

  /** From a letter or digit on, stripping trailing hyphens off the
      substitution gives the words joined by hyphens. */
  lemma {:induction false} TrailingWords(s: string)
    requires s != [] && IsAlnum(s[0])
    ensures StripTrailing(ReplaceRuns(s)) == JoinWords(Words(s))
    decreases |s|
  {
    HyphenIsSeparator();
    var w := Word(s);
    var rest := s[|w|..];
    ReplaceRunsCopiesWord(s);
    DropSeparatorsIdle(s);
    assert Words(s) == [w] + Words(rest);
    assert w != [] && IsAlnum(w[|w| - 1]);
    WordsEmptyIff(rest);
    if NoAlnum(rest) {
      NoAlnumReplaceRuns(rest);
      StripTrailingAfterWord(w, ReplaceRuns(rest));
    } else {
      var d := DropSeparators(rest);
      var rd := ReplaceRuns(d);
      WordsSkipSeparators(rest);
      assert rest != [] && !IsAlnum(rest[0]);
      assert ReplaceRuns(rest) == ['-'] + rd;
      assert d != [] && rd[0] == d[0];
      AppendAssoc(w, ['-'], rd);
      StripTrailingAppend(w + ['-'], rd);
      TrailingWords(d);
      JoinWordsCons(w, Words(d));
    }
  }

  lemma {:induction false} AppendAssoc(a: string, b: string, c: string)
    ensures a + (b + c) == (a + b) + c
  {
  }

  lemma {:induction false} StripTrailingAfterWord(w: string, z: string)
    requires w != [] && w[|w| - 1] != '-'
    requires z == [] || z == ['-']
    ensures StripTrailing(w + z) == w
  {
    if z == ['-'] {
      assert (w + z)[..|w + z| - 1] == w;
    } else {
      assert w + z == w;
    }
  }

  lemma {:induction false} JoinWordsCons(w: string, ws: seq<string>)
    requires ws != []
    ensures JoinWords([w] + ws) == w + ['-'] + JoinWords(ws)
  {
    assert ([w] + ws)[1..] == ws;
  }

  /** Substitution followed by stripping is joining the words. */
  lemma {:induction false} StripReplaceRunsIsJoin(s: string)
    ensures Strip(ReplaceRuns(s)) == JoinWords(Words(s))
    decreases |s|
  {
    HyphenIsSeparator();
    if s == [] {
    } else if !IsAlnum(s[0]) {
      var d := DropSeparators(s);
      var tail := ReplaceRuns(d);
      assert ReplaceRuns(s) == ['-'] + tail;
      assert (['-'] + tail)[1..] == tail;
      assert StripLeading(ReplaceRuns(s)) == StripLeading(tail);
      WordsSkipSeparators(s);
      StripReplaceRunsIsJoin(d);
    } else {
      var r := ReplaceRuns(s);
      assert r == [s[0]] + ReplaceRuns(s[1..]);
      assert StripLeading(r) == r;
      TrailingWords(s);
    }
  }

  /** The slug of a title is the title's lower-cased words joined by
      hyphens. */
  lemma {:induction false} SlugIsJoinedWords(title: string)
    ensures Slug(title) == JoinWords(Words(Lowercase(title)))
  {
    StripReplaceRunsIsJoin(Lowercase(title));
  }

  /** Lower-casing leaves every character of `s` alone. */
  predicate AllLower(s: string) {
    forall i :: 0 <= i < |s| ==> Lower(s[i]) == s[i]
  }

  lemma {:induction false} AllLowerSuffix(s: string, k: nat)
    requires AllLower(s) && k <= |s|
    ensures AllLower(s[k..])
  {
    forall i | 0 <= i < |s| - k
      ensures Lower(s[k..][i]) == s[k..][i]
    {
      assert s[k..][i] == s[k + i];
    }
  }

  /** Every element is a word. */
  predicate AllWords(ws: seq<string>) {
    forall j :: 0 <= j < |ws| ==> IsWord(ws[j])
  }

  lemma {:induction false} AllWordsCons(w: string, ws: seq<string>)
    requires IsWord(w) && AllWords(ws)
    ensures AllWords([w] + ws)
  {
    forall j | 0 <= j < |[w] + ws|
      ensures IsWord(([w] + ws)[j])
    {
      if j > 0 {
        assert ([w] + ws)[j] == ws[j - 1];
      }
    }
  }

  /** The first word of a lower-cased string is lower-cased. */
  lemma {:induction false} WordOfLower(s: string)
    requires AllLower(s) && s != [] && IsAlnum(s[0])
    ensures IsWord(Word(s))
  {
    var w := Word(s);
    forall i | 0 <= i < |w|
      ensures IsAlnum(w[i]) && Lower(w[i]) == w[i]
    {
      assert w[i] == s[i];
    }
  }

  /** The words of a lower-cased string are non-empty runs of lower-case
      letters and digits. */
  lemma {:induction false} WordsOfLowercase(s: string)
    requires AllLower(s)
    ensures AllWords(Words(s))
    decreases |s|
  {
    var rest := DropSeparators(s);
    if rest == [] {
      assert Words(s) == [];
    } else {
      var w := Word(rest);
      var more := rest[|w|..];
      assert Words(s) == [w] + Words(more);
      assert AllLower(rest) by {
        AllLowerSuffix(s, |s| - |rest|);
      }
      assert AllLower(more) by {
        AllLowerSuffix(rest, |w|);
      }
      assert IsWord(w) by {
        WordOfLower(rest);
      }
      WordsOfLowercase(more);
      AllWordsCons(w, Words(more));
    }
  }

  /** Words joined by hyphens have the shape of a slug. */
  lemma {:induction false} JoinWordsIsSlug(ws: seq<string>)
    requires AllWords(ws)
    ensures IsSlug(JoinWords(ws))
    ensures ws != [] ==> JoinWords(ws) != []
  {
    HyphenIsSeparator();
    if |ws| >= 2 {
      JoinWordsIsSlug(ws[1..]);
      var w, j := ws[0], JoinWords(ws[1..]);
      var r := w + ['-'] + j;
      assert IsWord(w);
      forall i | 0 <= i < |r|
        ensures IsSlugChar(r[i])
      {
        if i < |w| { assert r[i] == w[i]; }
        else if i > |w| { assert r[i] == j[i - |w| - 1]; }
      }
      forall i | 0 <= i < |r| - 1
        ensures !(r[i] == '-' && r[i + 1] == '-')
      {
        if i < |w| { assert r[i] == w[i]; }
        else if i > |w| { assert r[i] == j[i - |w| - 1]; }
      }
    }
  }

  // ---------------------------------------------------------------------
  // Properties of generate_slug.
  // ---------------------------------------------------------------------

  /** A string that already has the shape of a slug is its own slug. */
  lemma {:induction false} SlugFixesSlugs(s: string)
    requires IsSlug(s)
    ensures Slug(s) == s
  {
    HyphenIsSeparator();
    assert Lowercase(s) == s;
    ReplaceRunsFixes(s);
  }

  lemma {:induction false} ReplaceRunsFixes(s: string)
    requires forall i :: 0 <= i < |s| ==> IsSlugChar(s[i])
    requires forall i :: 0 <= i < |s| - 1 ==> !(s[i] == '-' && s[i + 1] == '-')
    ensures ReplaceRuns(s) == s
    decreases |s|
  {
    if s != [] {
      var t := s[1..];
      ReplaceRunsFixes(t);
      if IsAlnum(s[0]) {
        assert ReplaceRuns(s) == [s[0]] + ReplaceRuns(t);
      } else {
        assert t == [] || IsAlnum(t[0]) by {
          if t != [] { assert t[0] == s[1]; }
        }
        DropSeparatorsIdle(t);
        assert ReplaceRuns(s) == ['-'] + ReplaceRuns(t);
      }
      assert s == [s[0]] + t;
    }
  }

  /** `generate_slug` is idempotent. */
  lemma {:induction false} SlugIdempotent(title: string)
    ensures Slug(Slug(title)) == Slug(title)
  {
    SlugFixesSlugs(Slug(title));
  }

  /** The slug is empty exactly when the title holds no letter or digit,
      e.g. a title made only of punctuation and white space. */
  lemma {:induction false} SlugEmptyIff(title: string)
    ensures Slug(title) == [] <==> NoAlnum(title)
  {
    var low := Lowercase(title);
    var ws := Words(low);
    assert Slug(title) == JoinWords(ws) by {
      SlugIsJoinedWords(title);
    }
    assert JoinWords(ws) == [] <==> ws == [] by {
      assert AllLower(low);
      WordsOfLowercase(low);
      JoinWordsIsSlug(ws);
    }
    assert ws == [] <==> NoAlnum(low) by {
      WordsEmptyIff(low);
    }
    assert NoAlnum(low) <==> NoAlnum(title) by {
      assert forall i :: 0 <= i < |title| ==> IsAlnum(low[i]) == IsAlnum(title[i]);
    }
  }

  /** All letters and digits. */
  predicate AllAlnum(s: string) {
    forall i :: 0 <= i < |s| ==> IsAlnum(s[i])
  }

  lemma {:induction false} WordOfAlnumPrefix(w: string, rest: string)
    requires AllAlnum(w)
    requires rest == [] || !IsAlnum(rest[0])
    ensures Word(w + rest) == w
  {
    var t := w + rest;
    if w != [] {
      assert t[0] == w[0] && IsAlnum(t[0]);
      assert t[1..] == w[1..] + rest;
      WordOfAlnumPrefix(w[1..], rest);
      assert Word(t) == [t[0]] + Word(t[1..]);
      assert w == [w[0]] + w[1..];
    } else {
      assert t == rest;
    }
  }

  lemma {:induction false} DropSeparatorsPrefix(p: string, rest: string)
    requires NoAlnum(p)
    requires rest == [] || IsAlnum(rest[0])
    ensures DropSeparators(p + rest) == rest
  {
    if p != [] {
      assert (p + rest)[1..] == p[1..] + rest;
      DropSeparatorsPrefix(p[1..], rest);
    }
  }

  lemma {:induction false} LowercaseAppend(a: string, b: string)
    ensures Lowercase(a + b) == Lowercase(a) + Lowercase(b)
  {
  }

  /** A leading word followed by a separator or nothing is the first word. */
  lemma {:induction false} WordsOfLeadingWord(w: string, rest: string)
    requires w != [] && AllAlnum(w)
    requires rest == [] || !IsAlnum(rest[0])
    ensures Words(w + rest) == [w] + Words(rest)
  {
    WordOfAlnumPrefix(w, rest);
    DropSeparatorsIdle(w + rest);
    assert (w + rest)[|w|..] == rest;
  }

  /** Leading separators before a word or nothing contribute no word. */
  lemma {:induction false} WordsAfterSeparators(p: string, rest: string)
    requires NoAlnum(p)
    requires rest == [] || IsAlnum(rest[0])
    ensures Words(p + rest) == Words(rest)
  {
    DropSeparatorsPrefix(p, rest);
    WordsSkipSeparators(p + rest);
    WordsSkipSeparators(rest);
    DropSeparatorsIdle(rest);
  }

  lemma {:induction false} WordsOfTwoWords(a: string, p: string, b: string, q: string)
    requires a != [] && AllAlnum(a) && b != [] && AllAlnum(b)
    requires p != [] && NoAlnum(p) && NoAlnum(q)
    ensures Words(a + (p + (b + q))) == [a, b]
  {
    var bq := b + q;
    var pbq := p + bq;
    assert Words(bq) == [b] by {
      WordsOfLeadingWord(b, q);
      WordsEmptyIff(q);
      assert [b] + [] == [b];
    }
    assert Words(pbq) == [b] by {
      WordsAfterSeparators(p, bq);
    }
    WordsOfLeadingWord(a, pbq);
  }


  /** A title made of a word, a run of separators, a second word and
      optional trailing separators has as slug the two lower-cased words
      joined by one hyphen. */
  lemma {:induction false} SlugOfTwoWords(a: string, p: string, b: string, q: string)
    requires a != [] && AllAlnum(a) && b != [] && AllAlnum(b)
    requires p != [] && NoAlnum(p) && NoAlnum(q)
    ensures Slug(a + p + b + q) == Lowercase(a) + ['-'] + Lowercase(b)
  {
    var la, lb := Lowercase(a), Lowercase(b);
    LowercaseAppend(a + p + b, q);
    LowercaseAppend(a + p, b);
    LowercaseAppend(a, p);
    assert Lowercase(p) == p && Lowercase(q) == q;
    assert Lowercase(a + p + b + q) == la + (p + (lb + q));
    WordsOfTwoWords(la, p, lb, q);
    SlugIsJoinedWords(a + p + b + q);
  }

  lemma {:induction false} LowercaseHelloWorld()
    ensures Lowercase("Hello") == "hello" && Lowercase("hello") == "hello"
    ensures Lowercase("World") == "world" && Lowercase("world") == "world"
  {
  }

  /** The worked example: "Hello, World!" becomes "hello-world". */
  lemma {:induction false} SlugOfHelloWorld(title: string)
    requires title == "Hello, World!"
    ensures Slug(title) == "hello-world"
  {
    assert Slug(title) == Lowercase("Hello") + ['-'] + Lowercase("World") by {
      assert title == "Hello" + ", " + "World" + "!";
      SlugOfTwoWords("Hello", ", ", "World", "!");
    }
    LowercaseHelloWorld();
  }

  /** Distinct titles can share a slug: permalink uniqueness is left to the
      unique constraint on the stored slug. */
  lemma {:induction false} DistinctTitlesCanCollide(t1: string, t2: string)
    requires t1 == "Hello World" && t2 == "hello-world"
    ensures t1 != t2 && Slug(t1) == Slug(t2)
  {
    assert t1[0] != t2[0];
    SlugOfHelloSpaceWorld(t1);
    SlugFixesHelloWorld(t2);
  }

  lemma {:induction false} SlugOfHelloSpaceWorld(title: string)
    requires title == "Hello World"
    ensures Slug(title) == "hello-world"
  {
    assert Slug(title) == Lowercase("Hello") + ['-'] + Lowercase("World") by {
      assert title == "Hello" + " " + "World" + "";
      SlugOfTwoWords("Hello", " ", "World", "");
    }
    LowercaseHelloWorld();
  }

  lemma {:induction false} SlugFixesHelloWorld(title: string)
    requires title == "hello-world"
    ensures Slug(title) == "hello-world"
  {
    assert Slug(title) == Lowercase("hello") + ['-'] + Lowercase("world") by {
      assert title == "hello" + "-" + "world" + "";
      SlugOfTwoWords("hello", "-", "world", "");
    }
    LowercaseHelloWorld();
  }
}
