/** The slug normaliser used to turn a learning topic into a project
    directory name (`to_snake_case`), stated as a chain of four rewrites:
    lower-casing, blanking every character outside [a-z0-9_], turning each
    run of blanks into one underscore, and stripping underscores at both ends.

    Only ASCII case mapping is modelled: `LowerChar` leaves every character
    outside 'A'..'Z' unchanged. */
module Utils {

  predicate IsUpper(c: char) { 'A' <= c <= 'Z' }

  /** The characters kept as letters or digits in a slug: [a-z0-9]. */
  predicate IsLowerAlnum(c: char) { 'a' <= c <= 'z' || '0' <= c <= '9' }

  /** The characters a slug may contain: [a-z0-9_]. */
  predicate IsSlugChar(c: char) { IsLowerAlnum(c) || c == '_' }

  ghost predicate AllSlugChars(s: string) {
    forall i :: 0 <= i < |s| ==> IsSlugChar(s[i])
  }

  /** Characters that are slug characters or the blank the second rewrite
      puts in place of everything else. */
  ghost predicate AllSlugOrBlank(s: string) {
    forall i :: 0 <= i < |s| ==> IsSlugChar(s[i]) || s[i] == ' '
  }

  function LowerChar(c: char): (r: char)
    ensures !IsUpper(r)
    ensures IsUpper(c) ==> r as int == c as int + 32
    ensures !IsUpper(c) ==> r == c
  {
    if IsUpper(c) then (c as int + 32) as char else c
  }

  /** `text.lower()`, for ASCII letters. */
  function Lower(s: string): (r: string)
    ensures |r| == |s|
    ensures forall i :: 0 <= i < |s| ==> r[i] == LowerChar(s[i])
  {
    if s == [] then [] else [LowerChar(s[0])] + Lower(s[1..])
  }

  /** `re.sub(r'[^a-z0-9_]', ' ', text)`. */
  function Blank(s: string): (r: string)
    ensures |r| == |s|
    ensures forall i :: 0 <= i < |s| ==> r[i] == (if IsSlugChar(s[i]) then s[i] else ' ')
    ensures AllSlugOrBlank(r)
  {
    if s == [] then []
    else [if IsSlugChar(s[0]) then s[0] else ' '] + Blank(s[1..])
  }

  /** Drops the leading blanks of `s`: what is left is a suffix of `s`. */
  function DropBlanks(s: string): (r: string)
    ensures |r| <= |s|
    ensures r != [] ==> r[0] != ' '
  {
    if s != [] && s[0] == ' ' then DropBlanks(s[1..]) else s
  }

  lemma {:induction false} DropBlanksSuffix(s: string)
    ensures DropBlanks(s) == s[|s| - |DropBlanks(s)|..]
  {
    if s != [] && s[0] == ' ' {
      DropBlanksSuffix(s[1..]);
    }
  }

  /** `re.sub(r'\s+', '_', text)` on a text whose only whitespace is the
      blank: every maximal run of blanks becomes one underscore, so no blank
      is left. */
  function Join(s: string): (r: string)
    ensures |r| <= |s|
    ensures forall i :: 0 <= i < |r| ==> r[i] != ' '
    decreases |s|
  {
    if s == [] then []
    else if s[0] == ' ' then ['_'] + Join(DropBlanks(s[1..]))
    else [s[0]] + Join(s[1..])
  }

  lemma {:induction false} JoinAlphabet(s: string)
    requires AllSlugOrBlank(s)
    ensures AllSlugChars(Join(s))
    decreases |s|
  {
    if s != [] {
      if s[0] == ' ' {
        var d := DropBlanks(s[1..]);
        DropBlanksSuffix(s[1..]);
        assert AllSlugOrBlank(d) by {
          forall i | 0 <= i < |d| ensures IsSlugChar(d[i]) || d[i] == ' ' {
            assert d[i] == s[1..][|s| - 1 - |d| + i];
          }
        }
        JoinAlphabet(d);
        JoinHeadBlank(s);
        SlugCons('_', Join(d));
      } else {
        JoinAlphabet(s[1..]);
        JoinHeadChar(s);
        SlugCons(s[0], Join(s[1..]));
      }
    }
  }

  lemma SlugCons(c: char, x: string)
    requires IsSlugChar(c) && AllSlugChars(x)
    ensures AllSlugChars([c] + x)
  {
  }

  /** `n` copies of `c`: a run of underscores or of blanks. */
  function Repeat(c: char, n: nat): (r: string)
    ensures |r| == n
  {
    if n == 0 then [] else [c] + Repeat(c, n - 1)
  }

  lemma {:induction false} RepeatAppendOne(c: char, n: nat)
    ensures Repeat(c, n) + [c] == Repeat(c, n + 1)
  {
    if n > 0 {
      RepeatAppendOne(c, n - 1);
      AppendAssoc([c], Repeat(c, n - 1), [c]);
    }
  }

  /** `text.strip('_')`, leading half: only underscores are cut away. */
  function StripLeading(s: string): (r: string)
    ensures |r| <= |s| && s == Repeat('_', |s| - |r|) + r
    ensures r != [] ==> r[0] != '_'
  {
    if s != [] && s[0] == '_' then
      var r := StripLeading(s[1..]);
      assert s == ['_'] + s[1..];
      AppendAssoc(['_'], Repeat('_', |s| - 1 - |r|), r);
      r
    else
      assert s == [] + s;
      s
  }

  /** `text.strip('_')`, trailing half: only underscores are cut away. */
  function StripTrailing(s: string): (r: string)
    ensures |r| <= |s| && s == r + Repeat('_', |s| - |r|)
    ensures r != [] ==> r[|r| - 1] != '_'
  {
    if s != [] && s[|s| - 1] == '_' then
      var p := s[..|s| - 1];
      var r := StripTrailing(p);
      assert s == p + ['_'];
      RepeatAppendOne('_', |p| - |r|);
      AppendAssoc(r, Repeat('_', |p| - |r|), ['_']);
      r
    else
      assert s == s + [];
      s
  }

  /** `text.strip('_')`: the text is the result with underscores around it,
      and the result neither starts nor ends with '_'. */
  function Strip(s: string): (r: string)
    ensures |r| <= |s|
    ensures var a := |s| - |StripLeading(s)|;
      && a + |r| <= |s|
      && s == Repeat('_', a) + r + Repeat('_', |s| - a - |r|)
    ensures r != [] ==> r[0] != '_' && r[|r| - 1] != '_'
  {
    var t := StripLeading(s);
    var r := StripTrailing(t);
    AppendAssoc(Repeat('_', |s| - |t|), r, Repeat('_', |t| - |r|));
    assert r != [] ==> r[0] == t[0];
    r
  }

  /** The middle of a text of slug characters is made of slug characters. */
  lemma MiddleKeepsSlug(x: string, r: string, y: string)
    requires AllSlugChars(x + r + y)
    ensures AllSlugChars(r)
  {
    forall i | 0 <= i < |r| ensures IsSlugChar(r[i]) {
      assert r[i] == (x + r + y)[|x| + i];
    }
  }

  lemma {:induction false} StripLeadingPadded(a: string, x: string)
    requires forall i :: 0 <= i < |a| ==> a[i] == '_'
    requires x == [] || x[0] != '_'
    ensures StripLeading(a + x) == x
  {
    if a == [] {
      assert a + x == x;
    } else {
      assert (a + x)[0] == '_' && (a + x)[1..] == a[1..] + x;
      StripLeadingPadded(a[1..], x);
    }
  }

  lemma {:induction false} StripTrailingPadded(x: string, b: string)
    requires forall i :: 0 <= i < |b| ==> b[i] == '_'
    requires x == [] || x[|x| - 1] != '_'
    ensures StripTrailing(x + b) == x
  {
    if b == [] {
      assert x + b == x;
    } else {
      var b' := b[..|b| - 1];
      assert (x + b)[|x + b| - 1] == '_' && (x + b)[..|x + b| - 1] == x + b';
      StripTrailingPadded(x, b');
    }
  }

  /** Only the surrounding underscores are removed: a text that neither
      starts nor ends with '_' comes back from any padding of underscores. */
  lemma StripPadded(a: string, m: string, b: string)
    requires forall i :: 0 <= i < |a| ==> a[i] == '_'
    requires forall i :: 0 <= i < |b| ==> b[i] == '_'
    requires m != [] ==> m[0] != '_' && m[|m| - 1] != '_'
    ensures Strip(a + m + b) == m
  {
    if m == [] {
      assert a + m + b == a + b;
      StripLeadingPadded(a + b, []);
      assert a + b + [] == a + b;
    } else {
      assert a + m + b == a + (m + b);
      StripLeadingPadded(a, m + b);
      StripTrailingPadded(m, b);
    }
  }

  /** `to_snake_case(text)` (contest/src/utils.py). Every character of the
      result is in [a-z0-9_], the result neither starts nor ends with '_',
      and it is never longer than the text. */
  function ToSnakeCase(text: string): (r: string)
    ensures forall i :: 0 <= i < |r| ==> IsSlugChar(r[i])
    ensures r != [] ==> r[0] != '_' && r[|r| - 1] != '_'
    ensures |r| <= |text|
  {
    var b := Blank(Lower(text));
    JoinAlphabet(b);
    var j := Join(b);
    var a := |j| - |StripLeading(j)|;
    MiddleKeepsSlug(Repeat('_', a), Strip(j), Repeat('_', |j| - a - |Strip(j)|));
    Strip(j)
  }

  // ---------------------------------------------------------------------
  // Letters and digits survive in order.

  /** The letters and digits of a lower-cased text, in order. */
  function Keep(s: string): (r: string)
    ensures |r| <= |s|
    ensures forall i :: 0 <= i < |r| ==> IsLowerAlnum(r[i])
  {
    if s == [] then []
    else if IsLowerAlnum(s[0]) then [s[0]] + Keep(s[1..])
    else Keep(s[1..])
  }

  /** `s` with every '_' removed. */
  function DropUnderscores(s: string): (r: string)
    ensures |r| <= |s|
    ensures forall i :: 0 <= i < |r| ==> r[i] != '_'
  {
    if s == [] then []
    else if s[0] == '_' then DropUnderscores(s[1..])
    else [s[0]] + DropUnderscores(s[1..])
  }

  lemma {:induction false} KeepAppend(a: string, b: string)
    ensures Keep(a + b) == Keep(a) + Keep(b)
  {
    if a == [] {
      assert a + b == b;
    } else {
      assert (a + b)[0] == a[0];
      assert (a + b)[1..] == a[1..] + b;
      KeepAppend(a[1..], b);
    }
  }

  lemma {:induction false} KeepBlank(s: string)
    ensures Keep(Blank(s)) == Keep(s)
  {
    if s != [] {
      KeepBlank(s[1..]);
    }
  }

  lemma {:induction false} KeepDropBlanks(s: string)
    ensures Keep(DropBlanks(s)) == Keep(s)
  {
    if s != [] && s[0] == ' ' {
      KeepDropBlanks(s[1..]);
    }
  }

  lemma {:induction false} KeepJoin(s: string)
    ensures Keep(Join(s)) == Keep(s)
    decreases |s|
  {
    if s != [] {
      if s[0] == ' ' {
        var d := DropBlanks(s[1..]);
        KeepJoin(d);
        KeepDropBlanks(s[1..]);
        assert Keep(['_'] + Join(d)) == Keep(Join(d));
      } else {
        KeepJoin(s[1..]);
        assert Keep([s[0]] + Join(s[1..])) == [s[0]] + Keep(Join(s[1..])) || !IsLowerAlnum(s[0]);
      }
    }
  }

  lemma {:induction false} KeepStripLeading(s: string)
    ensures Keep(StripLeading(s)) == Keep(s)
  {
    if s != [] && s[0] == '_' {
      KeepStripLeading(s[1..]);
    }
  }

  lemma {:induction false} KeepStripTrailing(s: string)
    ensures Keep(StripTrailing(s)) == Keep(s)
    decreases |s|
  {
    if s != [] && s[|s| - 1] == '_' {
      var p := s[..|s| - 1];
      KeepStripTrailing(p);
      assert s == p + [s[|s| - 1]];
      KeepAppend(p, [s[|s| - 1]]);
    }
  }

  lemma {:induction false} DropUnderscoresIsKeep(s: string)
    requires AllSlugChars(s)
    ensures DropUnderscores(s) == Keep(s)
  {
    if s != [] {
      DropUnderscoresIsKeep(s[1..]);
    }
  }

  /** Removing the underscores from the slug gives exactly the letters and
      digits of the lower-cased text, in their original order. */
  lemma SnakeCaseKeepsLettersAndDigits(text: string)
    ensures DropUnderscores(ToSnakeCase(text)) == Keep(Lower(text))
  {
    var b := Blank(Lower(text));
    var j := Join(b);
    KeepBlank(Lower(text));
    KeepJoin(b);
    KeepStripLeading(j);
    KeepStripTrailing(StripLeading(j));
    SnakeCaseSteps(text);
    DropUnderscoresIsKeep(ToSnakeCase(text));
  }

  /** The slug is empty exactly when the text has no letter or digit; this is
      the case in which callers fall back to a generated name. */
  lemma SnakeCaseEmptyIff(text: string)
    ensures ToSnakeCase(text) == [] <==> Keep(Lower(text)) == []
  {
    var r := ToSnakeCase(text);
    SnakeCaseKeepsLettersAndDigits(text);
    if r != [] {
      assert IsLowerAlnum(r[0]);
      assert DropUnderscores(r) == [r[0]] + DropUnderscores(r[1..]);
    }
  }

  // ---------------------------------------------------------------------
  // Idempotence.

  lemma {:induction false} LowerFixesSlug(s: string)
    requires AllSlugChars(s)
    ensures Lower(s) == s
  {
    if s != [] {
      LowerFixesSlug(s[1..]);
    }
  }

  lemma {:induction false} BlankFixesSlugOrBlank(s: string)
    requires AllSlugOrBlank(s)
    ensures Blank(s) == s
  {
    if s != [] {
      BlankFixesSlugOrBlank(s[1..]);
    }
  }

  lemma {:induction false} JoinFixesSlug(s: string)
    requires AllSlugChars(s)
    ensures Join(s) == s
  {
    if s != [] {
      JoinFixesSlug(s[1..]);
    }
  }

  lemma StripFixesTrimmed(s: string)
    requires s != [] ==> s[0] != '_' && s[|s| - 1] != '_'
    ensures Strip(s) == s
  {
  }

  /** Normalising a slug a second time changes nothing. */
  lemma SnakeCaseIdempotent(text: string)
    ensures ToSnakeCase(ToSnakeCase(text)) == ToSnakeCase(text)
  {
    var r := ToSnakeCase(text);
    LowerFixesSlug(r);
    BlankFixesSlugOrBlank(r);
    JoinFixesSlug(r);
    StripFixesTrimmed(r);
    SnakeCaseSteps(r);
  }

  /** The four rewrites, one after the other. */
  lemma SnakeCaseSteps(text: string)
    ensures ToSnakeCase(text) == Strip(Join(Blank(Lower(text))))
  {
  }

  // ---------------------------------------------------------------------
  // Runs of blanks.

  lemma {:induction false} DropBlanksSkipsRun(n: nat, v: string)
    requires v == [] || v[0] != ' '
    ensures DropBlanks(Repeat(' ', n) + v) == v
  {
    if n == 0 {
      assert Repeat(' ', n) + v == v;
    } else {
      var w := Repeat(' ', n) + v;
      assert w[0] == ' ';
      assert w[1..] == Repeat(' ', n - 1) + v;
      DropBlanksSkipsRun(n - 1, v);
    }
  }

  lemma {:induction false} DropBlanksKeepsLast(s: string)
    requires s != [] && s[|s| - 1] != ' '
    ensures DropBlanks(s) != [] && DropBlanks(s)[|DropBlanks(s)| - 1] == s[|s| - 1]
  {
    if s[0] == ' ' {
      DropBlanksKeepsLast(s[1..]);
    }
  }

  lemma {:induction false} DropBlanksAppend(a: string, b: string)
    requires a != [] && a[|a| - 1] != ' '
    ensures DropBlanks(a + b) == DropBlanks(a) + b
  {
    assert (a + b)[0] == a[0];
    if a[0] == ' ' {
      assert (a + b)[1..] == a[1..] + b;
      DropBlanksAppend(a[1..], b);
    }
  }

  /** Cutting a text just after a character that is not a blank cuts no
      run of blanks, so the two halves are joined independently. */
  lemma {:induction false} JoinSplit(u: string, w: string)
    requires u == [] || u[|u| - 1] != ' '
    ensures Join(u + w) == Join(u) + Join(w)
    decreases |u|
  {
    if u == [] {
      assert u + w == w;
    } else if u[0] != ' ' {
      JoinSplit(u[1..], w);
      JoinSplitCharStep(u, w);
    } else {
      DropBlanksKeepsLast(u[1..]);
      JoinSplit(DropBlanks(u[1..]), w);
      JoinSplitBlankStep(u, w);
    }
  }

  lemma JoinSplitCharStep(u: string, w: string)
    requires u != [] && u[0] != ' '
    requires Join(u[1..] + w) == Join(u[1..]) + Join(w)
    ensures Join(u + w) == Join(u) + Join(w)
  {
    var x := u + w;
    assert x[0] == u[0] && x[1..] == u[1..] + w;
    JoinHeadChar(x);
    JoinHeadChar(u);
    AppendAssoc([u[0]], Join(u[1..]), Join(w));
  }

  /** A text that starts with a character other than the blank keeps it. */
  lemma JoinHeadChar(x: string)
    requires x != [] && x[0] != ' '
    ensures Join(x) == [x[0]] + Join(x[1..])
  {
  }

  lemma AppendAssoc(a: string, b: string, c: string)
    ensures a + (b + c) == (a + b) + c
  {
  }

  lemma JoinSplitBlankStep(u: string, w: string)
    requires u != [] && u[0] == ' ' && u[|u| - 1] != ' '
    requires Join(DropBlanks(u[1..]) + w) == Join(DropBlanks(u[1..])) + Join(w)
    ensures Join(u + w) == Join(u) + Join(w)
  {
    var d := DropBlanks(u[1..]);
    JoinBlankHead(u, w);
    JoinHeadBlank(u);
    AppendAssoc(['_'], Join(d), Join(w));
  }

  /** A text that starts with a blank: its leading run becomes one '_'. */
  lemma JoinHeadBlank(x: string)
    requires x != [] && x[0] == ' '
    ensures Join(x) == ['_'] + Join(DropBlanks(x[1..]))
  {
  }

  lemma JoinBlankHead(u: string, w: string)
    requires u != [] && u[0] == ' ' && u[|u| - 1] != ' '
    ensures Join(u + w) == ['_'] + Join(DropBlanks(u[1..]) + w)
  {
    var t := u[1..];
    var x := u + w;
    assert x[0] == ' ' && x[1..] == t + w;
    assert t != [] && t[|t| - 1] == u[|u| - 1];
    DropBlanksAppend(t, w);
    JoinHeadBlank(x);
  }

  lemma JoinRunAlone(n: nat, v: string)
    requires n > 0
    requires v == [] || v[0] != ' '
    ensures Join(Repeat(' ', n) + v) == ['_'] + Join(v)
  {
    var w := Repeat(' ', n) + v;
    assert Repeat(' ', n) == [' '] + Repeat(' ', n - 1);
    AppendAssoc([' '], Repeat(' ', n - 1), v);
    assert w[0] == ' ' && w[1..] == Repeat(' ', n - 1) + v;
    DropBlanksSkipsRun(n - 1, v);
    JoinHeadBlank(w);
  }

  /** Before the strip, a maximal run of blanks between two pieces of text
      becomes exactly one underscore and nothing else changes. */
  lemma JoinRun(u: string, n: nat, v: string)
    requires n > 0
    requires u == [] || u[|u| - 1] != ' '
    requires v == [] || v[0] != ' '
    ensures Join(u + Repeat(' ', n) + v) == Join(u) + ['_'] + Join(v)
  {
    AppendAssoc(u, Repeat(' ', n), v);
    JoinSplit(u, Repeat(' ', n) + v);
    JoinRunAlone(n, v);
    AppendAssoc(Join(u), ['_'], Join(v));
  }

  /** The blanking rewrite works character by character. */
  lemma BlankAppend(a: string, b: string)
    ensures Blank(a + b) == Blank(a) + Blank(b)
  {
    assert forall i :: 0 <= i < |a| ==> (a + b)[i] == a[i];
    assert forall i :: |a| <= i < |a| + |b| ==> (a + b)[i] == b[i - |a|];
  }

  /** A stretch of characters outside [a-z0-9_] is blanked whole. */
  lemma BlankNonSlug(x: string)
    requires forall i :: 0 <= i < |x| ==> !IsSlugChar(x[i])
    ensures Blank(x) == Repeat(' ', |x|)
  {
    BlanksAreBlank(|x|);
  }

  lemma {:induction false} BlanksAreBlank(n: nat)
    ensures forall i :: 0 <= i < n ==> Repeat(' ', n)[i] == ' '
  {
    if n > 0 {
      BlanksAreBlank(n - 1);
    }
  }

  /** Before the strip, a maximal run of characters outside [a-z0-9_] in the
      lower-cased topic, with slug characters (or nothing) on both sides,
      becomes exactly one '_' and nothing else changes. */
  lemma NonSlugRun(u: string, x: string, v: string)
    requires x != [] && forall i :: 0 <= i < |x| ==> !IsSlugChar(x[i])
    requires u == [] || IsSlugChar(u[|u| - 1])
    requires v == [] || IsSlugChar(v[0])
    ensures Join(Blank(u + x + v)) == Join(Blank(u)) + ['_'] + Join(Blank(v))
  {
    BlankAppend(u + x, v);
    BlankAppend(u, x);
    BlankNonSlug(x);
    JoinRun(Blank(u), |x|, Blank(v));
  }

  // ---------------------------------------------------------------------

  lemma {:induction false} LowerAppend(a: string, b: string)
    ensures Lower(a + b) == Lower(a) + Lower(b)
  {
    if a == [] {
      assert a + b == b;
    } else {
      assert (a + b)[0] == a[0] && (a + b)[1..] == a[1..] + b;
      LowerAppend(a[1..], b);
    }
  }

  /** The docstring's example. */
  lemma SnakeCaseExample()
    ensures ToSnakeCase("Learn Discrete Mathematics") == "learn_discrete_mathematics"
  {
    ExampleLower();
    ExampleBlank();
    ExampleJoin();
    ExampleStrip();
    SnakeCaseSteps("Learn Discrete Mathematics");
  }

  /** The example lower-cased, one capitalised word at a time. */
  lemma ExampleLower()
    ensures Lower("Learn Discrete Mathematics") == "learn discrete mathematics"
  {
    var l, d, m := ['L'] + "earn", ['D'] + "iscrete", ['M'] + "athematics";
    ExampleWordsSplit();
    ExampleWordsLower();
    LowerBlank();
    LowerAppend(" ", m);
    LowerAppend(d, " " + m);
    LowerAppend(" ", d + (" " + m));
    LowerAppend(l, " " + (d + (" " + m)));
  }

  /** The example cut into its words and blanks, before and after. */
  lemma ExampleWordsSplit()
    ensures "Learn Discrete Mathematics"
      == (['L'] + "earn") + (" " + ((['D'] + "iscrete") + (" " + (['M'] + "athematics"))))
    ensures "learn" + (" " + ("discrete" + (" " + "mathematics"))) == "learn discrete mathematics"
  {
  }

  lemma LowerBlank()
    ensures Lower(" ") == " "
  {
    assert Lower(" ")[0] == LowerChar(' ');
  }

  lemma ExampleWordsLower()
    ensures Lower(['L'] + "earn") == "learn"
    ensures Lower(['D'] + "iscrete") == "discrete"
    ensures Lower(['M'] + "athematics") == "mathematics"
  {
    ExampleTails();
    LowerCapitalised('L', "earn");
    LowerCapitalised('D', "iscrete");
    LowerCapitalised('M', "athematics");
  }

  lemma ExampleTails()
    ensures AllSlugChars("earn") && AllSlugChars("iscrete") && AllSlugChars("athematics")
    ensures ['l'] + "earn" == "learn" && ['d'] + "iscrete" == "discrete"
    ensures ['m'] + "athematics" == "mathematics"
  {
  }

  /** Lower-casing a capitalised word whose other letters are already in
      [a-z0-9_]. */
  lemma LowerCapitalised(c: char, rest: string)
    requires IsUpper(c) && AllSlugChars(rest)
    ensures Lower([c] + rest) == [LowerChar(c)] + rest
  {
    LowerAppend([c], rest);
    LowerFixesSlug(rest);
    assert Lower([c]) == [LowerChar(c)] + Lower([]);
  }

  lemma ExampleBlank()
    ensures Blank("learn discrete mathematics") == "learn discrete mathematics"
  {
    assert AllSlugOrBlank("learn discrete mathematics");
    BlankFixesSlugOrBlank("learn discrete mathematics");
  }

  lemma ExampleStrip()
    ensures Strip("learn_discrete_mathematics") == "learn_discrete_mathematics"
  {
    StripFixesTrimmed("learn_discrete_mathematics");
  }

  /** The example's words, with blanks and with underscores between them. */
  lemma ExampleWords()
    ensures "learn discrete mathematics" == "learn" + Repeat(' ', 1) + ("discrete" + Repeat(' ', 1) + "mathematics")
    ensures "learn_discrete_mathematics" == "learn" + ['_'] + ("discrete" + ['_'] + "mathematics")
    ensures AllSlugChars("learn") && AllSlugChars("discrete") && AllSlugChars("mathematics")
  {
    assert Repeat(' ', 1) == " ";
  }

  /** The example's two blanks each become one '_'. */
  lemma ExampleJoin()
    ensures Join("learn discrete mathematics") == "learn_discrete_mathematics"
  {
    var tail := "discrete" + Repeat(' ', 1) + "mathematics";
    ExampleWords();
    JoinRun("learn", 1, tail);
    JoinRun("discrete", 1, "mathematics");
    JoinFixesSlug("learn");
    JoinFixesSlug("discrete");
    JoinFixesSlug("mathematics");
  }

  /** A project directory name derived from a topic: the slug, or the
      caller's fallback name when the slug is empty (backend/main.py,
      src/main.py and src/migration.py each supply their own fallback). */
  function ProjectDirName(topic: string, fallback: string): (r: string)
    ensures Keep(Lower(topic)) == [] ==> r == fallback
    ensures Keep(Lower(topic)) != [] ==> r == ToSnakeCase(topic) && r != []
    ensures fallback != [] ==> r != []
  {
    SnakeCaseEmptyIff(topic);
    var slug := ToSnakeCase(topic);
    if slug == [] then fallback else slug
  }
}
