/**
 * The slugifier of main.py: turns a paper title into the directory name under
 * which the paper's documents are stored.
 *
 * The transform is a pipeline of four steps:
 *   1. Unicode normalisation (NFKC, or NFKD followed by dropping every non-ASCII character);
 *   2. deleting every character that is not a word character, whitespace or `-`;
 *   3. trimming whitespace at both ends;
 *   4. replacing every run of whitespace and hyphens by a single `-`.
 * The case of the letters is left alone.
 */
module Slugifier {

  /**
   * What the slugifier needs from Python's Unicode database: the two normal forms,
   * and the meaning of the regular-expression classes `\w` and `\s` on non-ASCII
   * characters. On ASCII characters the classes are fixed below.
   */
  datatype UnicodeDb = UnicodeDb(
    nfkc: string -> string,
    nfkd: string -> string,
    isAlnum: char -> bool,
    isSpace: char -> bool)

  predicate IsAscii(c: char)
  {
    c as int < 128
  }

  predicate AllAscii(s: string)
  {
    forall i :: 0 <= i < |s| ==> IsAscii(s[i])
  }

  /** NFKD leaves pure-ASCII text unchanged (Unicode Standard Annex #15). */
  ghost predicate NfkdFixesAscii(db: UnicodeDb)
  {
    forall s :: AllAscii(s) ==> db.nfkd(s) == s
  }

  /** The regular-expression class `\w`: letters, digits and `_`. */
  predicate IsWordChar(db: UnicodeDb, c: char)
  {
    if IsAscii(c) then 'a' <= c <= 'z' || 'A' <= c <= 'Z' || '0' <= c <= '9' || c == '_'
    else db.isAlnum(c)
  }

  /** The regular-expression class `\s`, which is also what `str.strip` removes. */
  predicate IsSpaceChar(db: UnicodeDb, c: char)
  {
    if IsAscii(c) then c == ' ' || 9 <= c as int <= 13 || 28 <= c as int <= 31
    else db.isSpace(c)
  }

  /** The class `[-\s]` whose runs become one hyphen. */
  predicate IsSeparator(db: UnicodeDb, c: char)
  {
    c == '-' || IsSpaceChar(db, c)
  }

  /** The class `[\w\s-]` that survives the first substitution. */
  predicate IsAllowed(db: UnicodeDb, c: char)
  {
    IsWordChar(db, c) || IsSpaceChar(db, c) || c == '-'
  }

  predicate NoSpace(db: UnicodeDb, s: string)
  {
    forall i :: 0 <= i < |s| ==> !IsSpaceChar(db, s[i])
  }

  predicate NoDoubleHyphen(s: string)
  {
    forall i :: 0 <= i < |s| - 1 ==> !(s[i] == '-' && s[i + 1] == '-')
  }

  // ---------------------------------------------------------------------------
  // Step 1: normalisation

  /** `.encode('ascii', 'ignore').decode('ascii')`: keeps exactly the ASCII characters, in order. */
  function DropNonAscii(s: string): (r: string)
    ensures AllAscii(r)
    ensures forall c :: c in r <==> c in s && IsAscii(c)
    ensures AllAscii(s) ==> r == s
  {
    if s == [] then []
    else if IsAscii(s[0]) then [s[0]] + DropNonAscii(s[1..])
    else DropNonAscii(s[1..])
  }

  /**
   * The first step: NFKC when Unicode is allowed; otherwise NFKD with every
   * non-ASCII character dropped, so that ASCII titles pass through unchanged.
   */
  function Normalize(db: UnicodeDb, s: string, allowUnicode: bool): (r: string)
    ensures !allowUnicode ==> AllAscii(r)
    ensures !allowUnicode && NfkdFixesAscii(db) && AllAscii(s) ==> r == s
  {
    if allowUnicode then db.nfkc(s) else DropNonAscii(db.nfkd(s))
  }

  /** Dropping works character by character: it distributes over concatenation. */
  lemma {:induction false} DropNonAsciiConcat(a: string, b: string)
    ensures DropNonAscii(a + b) == DropNonAscii(a) + DropNonAscii(b)
    decreases |a|
  {
    if a == [] {
      assert a + b == b;
    } else {
      assert (a + b)[0] == a[0] && (a + b)[1..] == a[1..] + b;
      DropNonAsciiConcat(a[1..], b);
    }
  }

  /** One more character is kept, at the end, exactly when it is ASCII. */
  lemma DropNonAsciiAppend(s: string, c: char)
    ensures DropNonAscii(s + [c]) == DropNonAscii(s) + (if IsAscii(c) then [c] else [])
  {
    DropNonAsciiConcat(s, [c]);
    assert [c][1..] == [];
  }

  // ---------------------------------------------------------------------------
  // Step 2: `re.sub(r'[^\w\s-]', '', s)`

  function DropDisallowed(db: UnicodeDb, s: string): (r: string)
    ensures forall c :: c in r <==> c in s && IsAllowed(db, c)
    ensures (forall i :: 0 <= i < |s| ==> IsAllowed(db, s[i])) ==> r == s
  {
    if s == [] then []
    else if IsAllowed(db, s[0]) then [s[0]] + DropDisallowed(db, s[1..])
    else DropDisallowed(db, s[1..])
  }

  /** Deleting works character by character: it distributes over concatenation. */
  lemma {:induction false} DropDisallowedConcat(db: UnicodeDb, a: string, b: string)
    ensures DropDisallowed(db, a + b) == DropDisallowed(db, a) + DropDisallowed(db, b)
    decreases |a|
  {
    if a == [] {
      assert a + b == b;
    } else {
      assert (a + b)[0] == a[0] && (a + b)[1..] == a[1..] + b;
      DropDisallowedConcat(db, a[1..], b);
    }
  }

  /** One more character is kept, at the end, exactly when it is in `[\w\s-]`. */
  lemma DropDisallowedAppend(db: UnicodeDb, s: string, c: char)
    ensures DropDisallowed(db, s + [c]) == DropDisallowed(db, s) + (if IsAllowed(db, c) then [c] else [])
  {
    DropDisallowedConcat(db, s, [c]);
    assert [c][1..] == [];
  }

  // ---------------------------------------------------------------------------
  // Step 3: `str.strip()`

  function TrimStart(db: UnicodeDb, s: string): (r: string)
    ensures |r| <= |s| && r == s[|s| - |r|..]
    ensures forall i :: 0 <= i < |s| - |r| ==> IsSpaceChar(db, s[i])
    ensures r == [] || !IsSpaceChar(db, r[0])
  {
    if s != [] && IsSpaceChar(db, s[0]) then TrimStart(db, s[1..]) else s
  }

  function TrimEnd(db: UnicodeDb, s: string): (r: string)
    ensures |r| <= |s| && r == s[..|r|]
    ensures forall i :: |r| <= i < |s| ==> IsSpaceChar(db, s[i])
    ensures r == [] || !IsSpaceChar(db, r[|r| - 1])
  {
    if s != [] && IsSpaceChar(db, s[|s| - 1]) then TrimEnd(db, s[..|s| - 1]) else s
  }

  /** Removes the whitespace at both ends and nothing else. */
  function Strip(db: UnicodeDb, s: string): (r: string)
    ensures exists i, j ::
              && 0 <= i <= j <= |s| && r == s[i..j]
              && (forall k :: 0 <= k < i ==> IsSpaceChar(db, s[k]))
              && (forall k :: j <= k < |s| ==> IsSpaceChar(db, s[k]))
    ensures r == [] || (!IsSpaceChar(db, r[0]) && !IsSpaceChar(db, r[|r| - 1]))
    ensures forall c :: c in r ==> c in s
    ensures r == [] <==> forall c :: c in s ==> IsSpaceChar(db, c)
  {
    var t := TrimStart(db, s);
    var r := TrimEnd(db, t);
    assert r == s[|s| - |t|..|s| - |t| + |r|];
    if r == [] then
      assert t == [];
      r
    else
      assert !IsSpaceChar(db, s[|s| - |t|]);
      r
  }

  // ---------------------------------------------------------------------------
  // Step 4: `re.sub(r'[-\s]+', '-', s)`

  /** Drops the separators at the front of `s`: the rest of a run the regex consumes. */
  function DropSeparators(db: UnicodeDb, s: string): (r: string)
    ensures |r| <= |s| && r == s[|s| - |r|..]
    ensures forall i :: 0 <= i < |s| - |r| ==> IsSeparator(db, s[i])
    ensures r == [] || !IsSeparator(db, r[0])
  {
    if s != [] && IsSeparator(db, s[0]) then
      var r := DropSeparators(db, s[1..]);
      assert s[|s| - |r|..] == s[1..][|s| - 1 - |r|..];
      assert forall i :: 1 <= i < |s| - |r| ==> s[i] == s[1..][i - 1];
      r
    else s
  }

  /** Replaces each maximal run of separators by one `-`; the result starts where the input does. */
  function Collapse(db: UnicodeDb, s: string): (r: string)
    ensures |s| > 0 ==> |r| > 0 && r[0] == (if IsSeparator(db, s[0]) then '-' else s[0])
    ensures r == [] <==> s == []
    decreases |s|
  {
    if s == [] then []
    else if IsSeparator(db, s[0]) then "-" + Collapse(db, DropSeparators(db, s[1..]))
    else [s[0]] + Collapse(db, s[1..])
  }

  /** Every character Collapse produces is a hyphen or a non-separator of its input. */
  lemma {:induction false} CollapseChars(db: UnicodeDb, s: string)
    ensures forall c :: c in Collapse(db, s) ==> c == '-' || (c in s && !IsSeparator(db, c))
    decreases |s|
  {
    if s == [] {
    } else if IsSeparator(db, s[0]) {
      var rest := DropSeparators(db, s[1..]);
      CollapseChars(db, rest);
      assert forall c :: c in rest ==> c in s;
    } else {
      CollapseChars(db, s[1..]);
    }
  }

  /** Collapse never leaves two hyphens side by side. */
  lemma {:induction false} CollapseNoDoubleHyphen(db: UnicodeDb, s: string)
    ensures NoDoubleHyphen(Collapse(db, s))
    decreases |s|
  {
    if s == [] {
    } else if IsSeparator(db, s[0]) {
      CollapseNoDoubleHyphen(db, DropSeparators(db, s[1..]));
    } else {
      CollapseNoDoubleHyphen(db, s[1..]);
    }
  }

  // ---------------------------------------------------------------------------
  // The whole transform

  /**
   * `slugify(string, allow_unicode)`. Every character of the slug is a word
   * character or `-`; there is no whitespace and no `--`; in ASCII mode the
   * slug is pure ASCII.
   */
  function Slugify(db: UnicodeDb, s: string, allowUnicode: bool): (r: string)
    ensures forall c :: c in r ==> c == '-' || (IsWordChar(db, c) && !IsSeparator(db, c))
    ensures NoSpace(db, r)
    ensures NoDoubleHyphen(r)
    ensures !allowUnicode ==> AllAscii(r)
  {
    var t := Strip(db, DropDisallowed(db, Normalize(db, s, allowUnicode)));
    CollapseChars(db, t);
    CollapseNoDoubleHyphen(db, t);
    Collapse(db, t)
  }

  // ---------------------------------------------------------------------------
  // What the slug keeps

  /** The characters of `s` that are not separators, in order. */
  function Retained(db: UnicodeDb, s: string): string
  {
    if s == [] then []
    else if IsSeparator(db, s[0]) then Retained(db, s[1..])
    else [s[0]] + Retained(db, s[1..])
  }

  /** The word characters of `s` that are not separators, in order: what a slug keeps. */
  function WordChars(db: UnicodeDb, s: string): string
  {
    if s == [] then []
    else if IsWordChar(db, s[0]) && !IsSeparator(db, s[0]) then [s[0]] + WordChars(db, s[1..])
    else WordChars(db, s[1..])
  }

  lemma {:induction false} RetainedConcat(db: UnicodeDb, a: string, b: string)
    ensures Retained(db, a + b) == Retained(db, a) + Retained(db, b)
    decreases |a|
  {
    if a == [] {
      assert a + b == b;
    } else {
      assert (a + b)[0] == a[0];
      assert (a + b)[1..] == a[1..] + b;
      RetainedConcat(db, a[1..], b);
    }
  }

  lemma {:induction false} RetainedOfSeparators(db: UnicodeDb, s: string)
    requires forall i :: 0 <= i < |s| ==> IsSeparator(db, s[i])
    ensures Retained(db, s) == []
    decreases |s|
  {
    if s != [] {
      RetainedOfSeparators(db, s[1..]);
    }
  }

  /** Deleting a prefix of separators keeps the same non-separators. */
  lemma RetainedAfterSeparators(db: UnicodeDb, s: string, k: nat)
    requires k <= |s|
    requires forall i :: 0 <= i < k ==> IsSeparator(db, s[i])
    ensures Retained(db, s[k..]) == Retained(db, s)
  {
    assert s == s[..k] + s[k..];
    RetainedConcat(db, s[..k], s[k..]);
    RetainedOfSeparators(db, s[..k]);
  }

  /** Collapsing separator runs neither adds, drops nor reorders the other characters. */
  lemma {:induction false} CollapseRetains(db: UnicodeDb, s: string)
    ensures Retained(db, Collapse(db, s)) == Retained(db, s)
    decreases |s|
  {
    if s == [] {
    } else if IsSeparator(db, s[0]) {
      var rest := DropSeparators(db, s[1..]);
      CollapseRetains(db, rest);
      RetainedAfterSeparators(db, s[1..], |s[1..]| - |rest|);
      assert ("-" + Collapse(db, rest))[1..] == Collapse(db, rest);
    } else {
      CollapseRetains(db, s[1..]);
      assert ([s[0]] + Collapse(db, s[1..]))[1..] == Collapse(db, s[1..]);
    }
  }

  /** Deleting a suffix of separators keeps the same non-separators. */
  lemma RetainedBeforeSeparators(db: UnicodeDb, s: string, k: nat)
    requires k <= |s|
    requires forall i :: k <= i < |s| ==> IsSeparator(db, s[i])
    ensures Retained(db, s[..k]) == Retained(db, s)
  {
    assert s == s[..k] + s[k..];
    RetainedConcat(db, s[..k], s[k..]);
    RetainedOfSeparators(db, s[k..]);
  }

  /** Stripping removes whitespace only. */
  lemma StripRetains(db: UnicodeDb, s: string)
    ensures Retained(db, Strip(db, s)) == Retained(db, s)
  {
    var t := TrimStart(db, s);
    RetainedAfterSeparators(db, s, |s| - |t|);
    RetainedBeforeSeparators(db, t, |TrimEnd(db, t)|);
  }

  /** The first substitution keeps exactly the word characters among the non-separators. */
  lemma {:induction false} DropDisallowedRetains(db: UnicodeDb, s: string)
    ensures Retained(db, DropDisallowed(db, s)) == WordChars(db, s)
    decreases |s|
  {
    if s != [] {
      DropDisallowedRetains(db, s[1..]);
      if IsAllowed(db, s[0]) {
        assert ([s[0]] + DropDisallowed(db, s[1..]))[1..] == DropDisallowed(db, s[1..]);
      }
    }
  }

  /**
   * Removing the hyphens of a slug gives back exactly the word characters of the
   * normalised title, in their original order and case: nothing is lower-cased,
   * and the only changes are deletions, trimming and separator replacement.
   */
  lemma SlugKeepsWordChars(db: UnicodeDb, s: string, allowUnicode: bool)
    ensures Retained(db, Slugify(db, s, allowUnicode)) == WordChars(db, Normalize(db, s, allowUnicode))
  {
    var d := DropDisallowed(db, Normalize(db, s, allowUnicode));
    CollapseRetains(db, Strip(db, d));
    StripRetains(db, d);
    DropDisallowedRetains(db, Normalize(db, s, allowUnicode));
  }

  /** The slug is empty exactly when the normalised title holds nothing but whitespace and deleted characters. */
  lemma SlugEmptyIff(db: UnicodeDb, s: string, allowUnicode: bool)
    ensures Slugify(db, s, allowUnicode) == []
        <==> forall c :: c in Normalize(db, s, allowUnicode) ==> IsSpaceChar(db, c) || !IsAllowed(db, c)
  {
  }

  // ---------------------------------------------------------------------------
  // Idempotence

  /** A string without whitespace and without `--` is a fixed point of Collapse. */
  lemma {:induction false} CollapseFixed(db: UnicodeDb, s: string)
    requires NoSpace(db, s) && NoDoubleHyphen(s)
    ensures Collapse(db, s) == s
    decreases |s|
  {
    if s != [] {
      if IsSeparator(db, s[0]) {
        assert s[0] == '-';
        assert DropSeparators(db, s[1..]) == s[1..];
      }
      CollapseFixed(db, s[1..]);
    }
  }

  /** In ASCII mode, slugifying a slug gives it back unchanged. */
  lemma SlugifyIdempotent(db: UnicodeDb, s: string)
    requires NfkdFixesAscii(db)
    ensures Slugify(db, Slugify(db, s, false), false) == Slugify(db, s, false)
  {
    var t := Slugify(db, s, false);
    assert Normalize(db, t, false) == t;
    assert forall i :: 0 <= i < |t| ==> IsAllowed(db, t[i]) by {
      forall i | 0 <= i < |t| ensures IsAllowed(db, t[i]) {
        assert t[i] in t;
      }
    }
    assert DropDisallowed(db, t) == t;
    assert TrimStart(db, t) == t;
    assert TrimEnd(db, t) == t;
    CollapseFixed(db, t);
  }

  /** A run of separators at the front becomes exactly one hyphen. */
  lemma CollapseRun(db: UnicodeDb, run: string, rest: string)
    requires run != [] && forall i :: 0 <= i < |run| ==> IsSeparator(db, run[i])
    requires rest == [] || !IsSeparator(db, rest[0])
    ensures Collapse(db, run + rest) == "-" + Collapse(db, rest)
  {
    var s := run + rest;
    assert IsSeparator(db, s[0]);
    assert s[1..] == run[1..] + rest;
    DropSeparatorsRun(db, run[1..], rest);
  }

  /** A word followed by a run of separators: the word is kept and the run becomes one hyphen. */
  lemma {:induction false} CollapseWordThenRun(db: UnicodeDb, word: string, run: string, rest: string)
    requires forall i :: 0 <= i < |word| ==> !IsSeparator(db, word[i])
    requires run != [] && forall i :: 0 <= i < |run| ==> IsSeparator(db, run[i])
    requires rest == [] || !IsSeparator(db, rest[0])
    ensures Collapse(db, word + run + rest) == word + "-" + Collapse(db, rest)
    decreases |word|
  {
    if word == [] {
      assert word + run + rest == run + rest;
      CollapseRun(db, run, rest);
    } else {
      var s := word + run + rest;
      assert s[0] == word[0] && s[1..] == word[1..] + run + rest;
      CollapseWordThenRun(db, word[1..], run, rest);
      assert word + "-" + Collapse(db, rest) == [word[0]] + (word[1..] + "-" + Collapse(db, rest));
    }
  }

  lemma {:induction false} DropSeparatorsRun(db: UnicodeDb, run: string, rest: string)
    requires forall i :: 0 <= i < |run| ==> IsSeparator(db, run[i])
    requires rest == [] || !IsSeparator(db, rest[0])
    ensures DropSeparators(db, run + rest) == rest
    decreases |run|
  {
    if run == [] {
      assert run + rest == rest;
    } else {
      assert (run + rest)[1..] == run[1..] + rest;
      DropSeparatorsRun(db, run[1..], rest);
    }
  }

  // ---------------------------------------------------------------------------
  // Titles made of plain words

  /** A non-empty run of ASCII letters, digits and underscores. */
  predicate PlainWord(db: UnicodeDb, w: string)
  {
    w != [] && forall i :: 0 <= i < |w| ==> IsAscii(w[i]) && IsWordChar(db, w[i])
  }

  /** The words joined by `sep`. */
  function JoinWith(words: seq<string>, sep: string): string
  {
    if words == [] then []
    else if |words| == 1 then words[0]
    else words[0] + sep + JoinWith(words[1..], sep)
  }

  lemma {:induction false} JoinedEnds(db: UnicodeDb, words: seq<string>, sep: string)
    requires words != [] && forall k :: 0 <= k < |words| ==> PlainWord(db, words[k])
    ensures var t, last := JoinWith(words, sep), words[|words| - 1];
      && PlainWord(db, words[0]) && PlainWord(db, last)
      && |t| > 0 && t[0] == words[0][0] && t[|t| - 1] == last[|last| - 1]
    decreases |words|
  {
    if |words| > 1 {
      JoinedEnds(db, words[1..], sep);
    }
  }

  lemma {:induction false} JoinedCharsAllowed(db: UnicodeDb, words: seq<string>)
    requires forall k :: 0 <= k < |words| ==> PlainWord(db, words[k])
    ensures AllAscii(JoinWith(words, " "))
    ensures forall i :: 0 <= i < |JoinWith(words, " ")| ==> IsAllowed(db, JoinWith(words, " ")[i])
    decreases |words|
  {
    if |words| > 1 {
      JoinedCharsAllowed(db, words[1..]);
      var t := JoinWith(words, " ");
      var u := JoinWith(words[1..], " ");
      assert PlainWord(db, words[0]);
      assert t == words[0] + " " + u;
      forall i | 0 <= i < |t| ensures IsAscii(t[i]) && IsAllowed(db, t[i]) {
        if i < |words[0]| {
          assert t[i] == words[0][i];
        } else if i == |words[0]| {
          assert t[i] == ' ';
        } else {
          var j := i - |words[0]| - 1;
          assert t[i] == u[j];
          assert IsAscii(u[j]) && IsAllowed(db, u[j]);
        }
      }
    }
  }

  lemma {:induction false} CollapseJoined(db: UnicodeDb, words: seq<string>)
    requires words != [] && forall k :: 0 <= k < |words| ==> PlainWord(db, words[k])
    ensures Collapse(db, JoinWith(words, " ")) == JoinWith(words, "-")
    decreases |words|
  {
    if |words| == 1 {
      CollapseFixed(db, words[0]);
    } else {
      var rest := JoinWith(words[1..], " ");
      JoinedEnds(db, words[1..], " ");
      CollapseWordThenRun(db, words[0], " ", rest);
      CollapseJoined(db, words[1..]);
    }
  }

  /**
   * A title made of plain ASCII words separated by single spaces slugifies to the
   * same words, unchanged, joined by hyphens (`"Deep Nets"` becomes `"Deep-Nets"`).
   */
  lemma SlugOfPlainTitle(db: UnicodeDb, words: seq<string>)
    requires NfkdFixesAscii(db)
    requires words != [] && forall k :: 0 <= k < |words| ==> PlainWord(db, words[k])
    ensures Slugify(db, JoinWith(words, " "), false) == JoinWith(words, "-")
  {
    PlainTitleUnchanged(db, words);
    CollapseJoined(db, words);
  }

  /** The first three steps leave a plain title as it is. */
  lemma PlainTitleUnchanged(db: UnicodeDb, words: seq<string>)
    requires NfkdFixesAscii(db)
    requires words != [] && forall k :: 0 <= k < |words| ==> PlainWord(db, words[k])
    ensures var t := JoinWith(words, " "); Strip(db, DropDisallowed(db, Normalize(db, t, false))) == t
  {
    var t := JoinWith(words, " ");
    JoinedCharsAllowed(db, words);
    JoinedEnds(db, words, " ");
    assert AllAscii(t);
    assert Normalize(db, t, false) == t;
    assert DropDisallowed(db, t) == t;
    assert TrimStart(db, t) == t;
    assert TrimEnd(db, t) == t;
  }
}
