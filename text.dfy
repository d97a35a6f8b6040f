/** The Python string operations the scraper applies to the text it reads:
    `split`, `join`, `strip`, `replace(pat, '')`, the substring test `in`,
    and the `re.sub(r'\W+', '-', name).lower()` that turns a company name
    into an output file name. Character classes are the ASCII ones. */
module Text {

  // ---------------------------------------------------------------------
  // split and join
  // ---------------------------------------------------------------------

  /** Python's `s.split(sep)` for a one-character separator: the segments
      between separators, always at least one. */
  function Split(s: string, sep: char): (parts: seq<string>)
    ensures |parts| >= 1
    ensures forall i :: 0 <= i < |parts| ==> sep !in parts[i]
    decreases |s|
  {
    if s == [] then [""]
    else if s[0] == sep then [""] + Split(s[1..], sep)
    else
      var rest := Split(s[1..], sep);
      [[s[0]] + rest[0]] + rest[1..]
  }

  /** Python's `sep.join(parts)`. */
  function Join(parts: seq<string>, sep: string): (r: string)
    ensures parts == [] ==> r == []
    decreases |parts|
  {
    if |parts| == 0 then ""
    else if |parts| == 1 then parts[0]
    else parts[0] + sep + Join(parts[1..], sep)
  }

  /** A join of at least two parts begins with the first two and the separator between them. */
  lemma JoinFirstTwo(parts: seq<string>, sep: string)
    requires |parts| >= 2
    ensures Join(parts, sep) == parts[0] + sep + parts[1]
                                + (if |parts| == 2 then "" else sep + Join(parts[2..], sep))
  {
    assert parts[1..][1..] == parts[2..];
  }

  /** Joining the segments of a split with the separator gives back the string. */
  lemma {:induction false} JoinSplit(s: string, sep: char)
    ensures Join(Split(s, sep), [sep]) == s
    decreases |s|
  {
    if s == [] {
    } else if s[0] == sep {
      JoinSplit(s[1..], sep);
      var rest := Split(s[1..], sep);
      assert Split(s, sep) == [""] + rest;
      assert ([""] + rest)[1..] == rest;
      assert s == [sep] + s[1..];
    } else {
      JoinSplit(s[1..], sep);
      var rest := Split(s[1..], sep);
      var parts := [[s[0]] + rest[0]] + rest[1..];
      assert Split(s, sep) == parts;
      assert parts[1..] == rest[1..];
      if |rest| == 1 {
        assert s == [s[0]] + s[1..];
      } else {
        assert Join(rest, [sep]) == rest[0] + [sep] + Join(rest[1..], [sep]);
        assert s == [s[0]] + s[1..];
      }
    }
  }

  /** A string without the separator splits into itself. */
  lemma {:induction false} SplitWithoutSep(a: string, sep: char)
    requires sep !in a
    ensures Split(a, sep) == [a]
    decreases |a|
  {
    if a != [] {
      SplitWithoutSep(a[1..], sep);
      assert [a[0]] + a[1..] == a;
    }
  }

  /** The first separator ends the first segment. */
  lemma {:induction false} SplitAtFirstSep(a: string, sep: char, b: string)
    requires sep !in a
    ensures Split(a + [sep] + b, sep) == [a] + Split(b, sep)
    decreases |a|
  {
    if a == [] {
      assert a + [sep] + b == [sep] + b;
      assert ([sep] + b)[1..] == b;
    } else {
      var s := a + [sep] + b;
      assert s[0] == a[0] && s[1..] == a[1..] + [sep] + b;
      SplitAtFirstSep(a[1..], sep, b);
      assert [a[0]] + a[1..] == a;
    }
  }

  /** Splitting a join of separator-free segments gives back the segments. */
  lemma {:induction false} SplitJoin(parts: seq<string>, sep: char)
    requires |parts| >= 1
    requires forall i :: 0 <= i < |parts| ==> sep !in parts[i]
    ensures Split(Join(parts, [sep]), sep) == parts
    decreases |parts|
  {
    if |parts| == 1 {
      SplitWithoutSep(parts[0], sep);
    } else {
      SplitJoin(parts[1..], sep);
      SplitAtFirstSep(parts[0], sep, Join(parts[1..], [sep]));
      assert [parts[0]] + parts[1..] == parts;
    }
  }

  /** The first segment of a split is the longest separator-free prefix:
      it is a prefix, and what follows it (if anything) is the separator. */
  lemma {:induction false} FirstSegmentIsPrefix(s: string, sep: char)
    ensures Split(s, sep)[0] <= s
    ensures |Split(s, sep)[0]| == |s| || s[|Split(s, sep)[0]|] == sep
    decreases |s|
  {
    if s != [] && s[0] != sep {
      FirstSegmentIsPrefix(s[1..], sep);
    }
  }

  /** A character that is neither in the separator nor in any part is not in the join. */
  lemma {:induction false} JoinAvoids(parts: seq<string>, sep: string, c: char)
    requires c !in sep
    requires forall i :: 0 <= i < |parts| ==> c !in parts[i]
    ensures c !in Join(parts, sep)
    decreases |parts|
  {
    if |parts| > 1 {
      JoinAvoids(parts[1..], sep, c);
    }
  }

  // ---------------------------------------------------------------------
  // strip
  // ---------------------------------------------------------------------

  /** Every character of `s` from `lo` up to `hi` is one `cls` holds. */
  predicate AllAccepted(s: string, lo: int, hi: int, cls: CharClass)
    requires 0 <= lo && hi <= |s|
  {
    forall k :: lo <= k < hi ==> InClass(cls, s[k])
  }

  /** The characters `cls` holds, dropped from the front. */
  function DropLeading(s: string, cls: CharClass): (r: string)
    ensures |r| <= |s| && r == s[|s| - |r|..]
    ensures AllAccepted(s, 0, |s| - |r|, cls)
    ensures r == [] || !InClass(cls, r[0])
    ensures s != [] && InClass(cls, s[0]) ==> |r| < |s|
    decreases |s|
  {
    if s != [] && InClass(cls, s[0]) then DropLeading(s[1..], cls) else s
  }

  /** The characters `cls` holds, dropped from the back. */
  function DropTrailing(s: string, cls: CharClass): (r: string)
    ensures |r| <= |s| && r == s[..|r|]
    ensures AllAccepted(s, |r|, |s|, cls)
    ensures r == [] || !InClass(cls, r[|r| - 1])
    decreases |s|
  {
    if s != [] && InClass(cls, s[|s| - 1]) then DropTrailing(s[..|s| - 1], cls) else s
  }

  /** `r` is `s` with the first `i` characters and some trailing characters
      cut off, every character cut being one `cls` holds. */
  predicate TrimmedAt(s: string, r: string, i: int, cls: CharClass)
  {
    0 <= i <= |s| - |r| && r == s[i..i + |r|]
    && AllAccepted(s, 0, i, cls) && AllAccepted(s, i + |r|, |s|, cls)
  }

  /** Python's `s.strip(chars)`, the set of characters given by `cls`: the
      contiguous middle of `s` left after cutting accepted characters from
      both ends, neither end of which is accepted. */
  function Strip(s: string, cls: CharClass): (r: string)
    ensures |r| <= |s|
    ensures r == [] || (!InClass(cls, r[0]) && !InClass(cls, r[|r| - 1]))
    ensures forall c :: c in r ==> c in s
    ensures r == [] ==> AllAccepted(s, 0, |s|, cls)
    ensures exists i :: TrimmedAt(s, r, i, cls)
  {
    var t := DropLeading(s, cls);
    var r := DropTrailing(t, cls);
    TrimmedFromEnds(s, t, r, cls);
    TrimmedKeepsChars(s, r, |s| - |t|, cls);
    r
  }

  /** Cutting accepted characters from the front, then from the back of what
      is left, trims `s`. */
  lemma TrimmedFromEnds(s: string, t: string, r: string, cls: CharClass)
    requires |t| <= |s| && t == s[|s| - |t|..] && AllAccepted(s, 0, |s| - |t|, cls)
    requires |r| <= |t| && r == t[..|r|] && AllAccepted(t, |r|, |t|, cls)
    ensures TrimmedAt(s, r, |s| - |t|, cls)
  {
    var i := |s| - |t|;
    SliceOfSuffix(s, i, |r|);
    AcceptedInSuffix(s, i, |r|, |t|, cls);
  }

  /** A prefix of a suffix is a middle slice. */
  lemma SliceOfSuffix(s: string, i: int, n: int)
    requires 0 <= i && 0 <= n && i + n <= |s|
    ensures s[i..][..n] == s[i..i + n]
  {
  }

  /** Accepted characters of a suffix are accepted characters of the whole. */
  lemma AcceptedInSuffix(s: string, i: int, lo: int, hi: int, cls: CharClass)
    requires 0 <= i <= |s| && 0 <= lo && hi <= |s| - i
    requires AllAccepted(s[i..], lo, hi, cls)
    ensures AllAccepted(s, i + lo, i + hi, cls)
  {
    forall k | i + lo <= k < i + hi
      ensures InClass(cls, s[k])
    {
      assert s[k] == s[i..][k - i];
    }
  }

  /** What is left after trimming holds only characters of the original. */
  lemma TrimmedKeepsChars(s: string, r: string, i: int, cls: CharClass)
    requires TrimmedAt(s, r, i, cls)
    ensures forall c :: c in r ==> c in s
  {
    forall c | c in r
      ensures c in s
    {
      var j :| 0 <= j < |r| && r[j] == c;
      assert s[i + j] == c;
    }
  }

  /** A string neither end of which is accepted is left as it is. */
  lemma StripUnaccepted(s: string, cls: CharClass)
    requires s == [] || (!InClass(cls, s[0]) && !InClass(cls, s[|s| - 1]))
    ensures Strip(s, cls) == s
  {
    assert DropLeading(s, cls) == s;
  }

  /** Wrapping a string whose ends are not accepted in one accepted
      character on each side is undone by stripping. */
  lemma {:induction false} StripWrapped(t: string, q: char, cls: CharClass)
    requires InClass(cls, q)
    requires t == [] || (!InClass(cls, t[0]) && !InClass(cls, t[|t| - 1]))
    ensures Strip([q] + t + [q], cls) == t
  {
    var u := t + [q];
    assert ([q] + t + [q])[1..] == u;
    DropLeadingStep([q] + t + [q], cls);
    assert u[..|u| - 1] == t;
    DropTrailingStep(u, cls);
    if t == [] {
      DropLeadingStep(u, cls);
    } else {
      assert DropLeading(u, cls) == u;
    }
  }

  /** One accepted character is dropped from the front. */
  lemma DropLeadingStep(s: string, cls: CharClass)
    requires s != [] && InClass(cls, s[0])
    ensures DropLeading(s, cls) == DropLeading(s[1..], cls)
  {
  }

  /** One accepted character is dropped from the back. */
  lemma DropTrailingStep(s: string, cls: CharClass)
    requires s != [] && InClass(cls, s[|s| - 1])
    ensures DropTrailing(s, cls) == DropTrailing(s[..|s| - 1], cls)
  {
  }

  /** Stripping twice strips nothing more. */
  lemma StripIdempotent(s: string, cls: CharClass)
    ensures Strip(Strip(s, cls), cls) == Strip(s, cls)
  {
    var r := Strip(s, cls);
    assert DropLeading(r, cls) == r;
  }

  /** The characters for which Python's `str.isspace` holds, among ASCII. */
  predicate IsSpace(c: char)
  {
    c == ' ' || ('\t' <= c <= '\r') || ('\U{1C}' <= c <= '\U{1F}')
  }

  /** A double quote, the character `strip('"')` removes. */
  predicate IsQuote(c: char)
  {
    c == '"'
  }

  /** The character sets the scraper strips or collapses: quotes, white
      space, and the non-word characters of `\W`. */
  datatype CharClass = Quotes | Spaces | NonWord

  predicate InClass(cls: CharClass, c: char)
  {
    match cls
    case Quotes => IsQuote(c)
    case Spaces => IsSpace(c)
    case NonWord => IsNonWordChar(c)
  }

  // ---------------------------------------------------------------------
  // replace and substring test
  // ---------------------------------------------------------------------

  /** Python's `s.replace(pat, '')`: occurrences are found from the left and do
      not overlap. */
  function RemoveAll(s: string, pat: string): (r: string)
    requires |pat| > 0
    ensures |r| <= |s|
    ensures forall c :: c in r ==> c in s
    ensures |pat| == 1 ==> pat[0] !in r
    ensures !Contains(s, pat) ==> r == s
    decreases |s|
  {
    if |s| < |pat| then s
    else if s[..|pat|] == pat then
      var r := RemoveAll(s[|pat|..], pat);
      assert forall c :: c in s[|pat|..] ==> c in s;
      r
    else
      var r := RemoveAll(s[1..], pat);
      assert forall c :: c in s[1..] ==> c in s;
      [s[0]] + r
  }

  /** Python's `pat in s`. */
  predicate Contains(s: string, pat: string)
    decreases |s|
  {
    pat <= s || (s != [] && Contains(s[1..], pat))
  }

  /** `pat` occurs in `s` starting at position `i`. */
  predicate OccursAt(s: string, pat: string, i: int)
  {
    0 <= i <= |s| - |pat| && s[i..i + |pat|] == pat
  }

  /** `Contains` is the substring test: `pat` occurs at some position of `s`. */
  lemma {:induction false} ContainsIff(s: string, pat: string)
    ensures Contains(s, pat) <==> exists i :: OccursAt(s, pat, i)
    decreases |s|
  {
    if pat <= s {
      assert OccursAt(s, pat, 0);
    } else if s == [] {
    } else {
      ContainsIff(s[1..], pat);
      if exists i :: OccursAt(s, pat, i) {
        var i :| OccursAt(s, pat, i);
        assert i != 0 by { assert s[0..|pat|] == s[..|pat|]; }
        assert OccursAt(s[1..], pat, i - 1) by { assert s[1..][i - 1..i - 1 + |pat|] == s[i..i + |pat|]; }
      }
      if exists i :: OccursAt(s[1..], pat, i) {
        var i :| OccursAt(s[1..], pat, i);
        assert OccursAt(s, pat, i + 1) by { assert s[1..][i..i + |pat|] == s[i + 1..i + 1 + |pat|]; }
      }
    }
  }

  /** Where no occurrence starts, the first character is kept and the
      removal goes on after it. */
  lemma RemoveAllKeep(s: string, pat: string)
    requires |pat| > 0 && s != [] && !(pat <= s)
    ensures RemoveAll(s, pat) == [s[0]] + RemoveAll(s[1..], pat)
  {
    if |s| < |pat| {
      assert [s[0]] + s[1..] == s;
    }
  }

  /** A non-empty string regroups around its first character. */
  lemma ConsRegroup(a: string, m: string, r: string)
    requires a != []
    ensures [a[0]] + (a[1..] + m + r) == a + m + r
  {
    assert [a[0]] + a[1..] == a;
  }

  /** A pattern character that does not start an occurrence is kept, and
      the removal goes on after it. */
  lemma {:induction false} RemoveAllSkip(a: string, pat: string, b: string)
    requires |pat| > 0 && pat[0] !in a
    requires !(pat <= [pat[0]] + b)
    ensures RemoveAll(a + [pat[0]] + b, pat) == a + [pat[0]] + RemoveAll(b, pat)
    decreases |a|
  {
    var s := a + [pat[0]] + b;
    if a == [] {
      assert s == [pat[0]] + b && s[1..] == b;
      RemoveAllKeep(s, pat);
    } else {
      assert s[0] == a[0] && a[0] != pat[0];
      assert s[1..] == a[1..] + [pat[0]] + b;
      RemoveAllKeep(s, pat);
      RemoveAllSkip(a[1..], pat, b);
      ConsRegroup(a, [pat[0]], RemoveAll(b, pat));
    }
  }

  /** A prefix of `[pat[0]] + b` is `pat[0]` followed by a prefix of `b`. */
  lemma PrefixAfterFirst(pat: string, b: string)
    requires |pat| > 0
    ensures pat <= [pat[0]] + b ==> pat[1..] <= b
  {
    if pat <= [pat[0]] + b {
      assert pat[1..] == ([pat[0]] + b)[1..|pat|] == b[..|pat| - 1];
    }
  }

  /** A string that lacks the first character of a non-empty pattern does not contain it. */
  lemma {:induction false} NotContainsFirst(s: string, pat: string)
    requires |pat| > 0 && pat[0] !in s
    ensures !Contains(s, pat)
    decreases |s|
  {
    if s != [] {
      assert s[0] != pat[0];
      NotContainsFirst(s[1..], pat);
    }
  }

  /** The first occurrence is the one removed: when no occurrence can start
      in `a` (it lacks the pattern's first character), the removal keeps `a`
      and goes on after the pattern. */
  lemma {:induction false} RemoveAllFirst(a: string, pat: string, b: string)
    requires |pat| > 0 && pat[0] !in a
    ensures RemoveAll(a + pat + b, pat) == a + RemoveAll(b, pat)
    decreases |a|
  {
    var s := a + pat + b;
    if a == [] {
      assert s == pat + b && s[..|pat|] == pat && s[|pat|..] == b;
    } else {
      assert s[0] == a[0] && a[0] != pat[0];
      assert s[1..] == a[1..] + pat + b;
      RemoveAllKeep(s, pat);
      RemoveAllFirst(a[1..], pat, b);
      ConsRegroup(a, [], RemoveAll(b, pat));
      assert a[1..] + [] == a[1..] && a + [] == a;
    }
  }


  // ---------------------------------------------------------------------
  // output file names
  // ---------------------------------------------------------------------

  /** The ASCII meaning of the regular-expression class `\w`. */
  predicate IsWordChar(c: char)
  {
    ('a' <= c <= 'z') || ('A' <= c <= 'Z') || ('0' <= c <= '9') || c == '_'
  }

  /** The ASCII meaning of `\W`. */
  predicate IsNonWordChar(c: char)
  {
    !IsWordChar(c)
  }

  /** Only word characters and dashes. */
  predicate DashesAndWords(r: string)
  {
    forall i :: 0 <= i < |r| ==> IsWordChar(r[i]) || r[i] == '-'
  }

  /** No two dashes in a row. */
  predicate NoDoubleDash(r: string)
  {
    forall i :: 0 <= i < |r| - 1 ==> !(r[i] == '-' && r[i + 1] == '-')
  }

  /** `re.sub(r'\W+', '-', s)`: every maximal run of non-word characters
      becomes a single `-`. */
  function CollapseNonWord(s: string): (r: string)
    ensures DashesAndWords(r) && NoDoubleDash(r)
    ensures s != [] && IsWordChar(s[0]) ==> r != [] && r[0] == s[0]
    decreases |s|
  {
    if s == [] then []
    else if IsWordChar(s[0]) then [s[0]] + CollapseNonWord(s[1..])
    else "-" + CollapseNonWord(DropLeading(s, NonWord))
  }

  /** The word characters of a string, in order. */
  function WordChars(s: string): (r: string)
    decreases |s|
  {
    if s == [] then []
    else if IsWordChar(s[0]) then [s[0]] + WordChars(s[1..])
    else WordChars(s[1..])
  }

  lemma {:induction false} WordCharsDropNonWord(s: string)
    ensures WordChars(DropLeading(s, NonWord)) == WordChars(s)
    decreases |s|
  {
    if s != [] && IsNonWordChar(s[0]) {
      WordCharsDropNonWord(s[1..]);
    }
  }

  /** Collapsing keeps every word character, in order, and adds none. */
  lemma {:induction false} CollapseKeepsWords(s: string)
    ensures WordChars(CollapseNonWord(s)) == WordChars(s)
    decreases |s|
  {
    if s == [] {
    } else if IsWordChar(s[0]) {
      CollapseKeepsWords(s[1..]);
      assert ([s[0]] + CollapseNonWord(s[1..]))[1..] == CollapseNonWord(s[1..]);
    } else {
      var t := DropLeading(s, NonWord);
      CollapseKeepsWords(t);
      WordCharsDropNonWord(s);
      assert ("-" + CollapseNonWord(t))[1..] == CollapseNonWord(t);
    }
  }

  /** A string made of word characters and single dashes is left as it is. */
  lemma {:induction false} CollapseFixpoint(s: string)
    requires DashesAndWords(s) && NoDoubleDash(s)
    ensures CollapseNonWord(s) == s
    decreases |s|
  {
    if s == [] {
    } else if IsWordChar(s[0]) {
      CollapseFixpoint(s[1..]);
      assert [s[0]] + s[1..] == s;
    } else {
      assert DropLeading(s[1..], NonWord) == s[1..];
      CollapseFixpoint(s[1..]);
      assert "-" + s[1..] == s;
    }
  }

  /** Dropping leading non-word characters from a string that holds a word
      character stops inside it. */
  lemma {:induction false} DropLeadingAppend(a: string, x: string)
    requires DropLeading(a, NonWord) != []
    ensures DropLeading(a + x, NonWord) == DropLeading(a, NonWord) + x
    decreases |a|
  {
    assert (a + x)[0] == a[0];
    if IsNonWordChar(a[0]) {
      assert (a + x)[1..] == a[1..] + x;
      DropLeadingAppend(a[1..], x);
    }
  }

  /** A string made only of non-word characters. */
  predicate NonWordRun(w: string)
  {
    forall k :: 0 <= k < |w| ==> IsNonWordChar(w[k])
  }

  /** A run of non-word characters followed by nothing or by a word character
      is dropped whole. */
  lemma {:induction false} DropLeadingRun(w: string, b: string)
    requires NonWordRun(w)
    requires b == [] || IsWordChar(b[0])
    ensures DropLeading(w + b, NonWord) == b
    decreases |w|
  {
    if w == [] {
      assert w + b == b;
    } else {
      assert (w + b)[0] == w[0] && (w + b)[1..] == w[1..] + b;
      assert NonWordRun(w[1..]) by { assert forall k :: 0 <= k < |w| - 1 ==> w[1..][k] == w[k + 1]; }
      DropLeadingRun(w[1..], b);
    }
  }

  /** A string ending in a word character keeps its last character when its
      leading non-word characters are dropped. */
  lemma {:induction false} DropLeadingKeepsLast(a: string)
    requires a != [] && IsWordChar(a[|a| - 1])
    ensures var d := DropLeading(a, NonWord);
            d != [] && IsWordChar(d[|d| - 1])
    decreases |a|
  {
    if IsNonWordChar(a[0]) {
      assert |a| > 1;
      DropLeadingKeepsLast(a[1..]);
      assert a[1..][|a| - 2] == a[|a| - 1];
    }
  }

  /** Where the dashes go: a maximal run of non-word characters, between a
      word character (or the start) and a word character (or the end),
      becomes exactly one `-` in its place. */
  lemma CollapseRunToDash(a: string, w: string, b: string)
    requires a == [] || IsWordChar(a[|a| - 1])
    requires |w| > 0 && NonWordRun(w)
    requires b == [] || IsWordChar(b[0])
    ensures CollapseNonWord(a + w + b) == CollapseNonWord(a) + "-" + CollapseNonWord(b)
  {
    Regroup(a, w, b);
    CollapseAppend(a, w + b);
    CollapseRunAtStart(w, b);
    Regroup(CollapseNonWord(a), "-", CollapseNonWord(b));
  }

  /** Concatenation regroups. */
  lemma Regroup(p: string, q: string, r: string)
    ensures p + (q + r) == p + q + r
  {
  }

  /** Collapsing splits at a boundary that follows a word character: no run
      of non-word characters crosses it. */
  lemma {:induction false} CollapseAppend(a: string, x: string)
    requires a == [] || IsWordChar(a[|a| - 1])
    ensures CollapseNonWord(a + x) == CollapseNonWord(a) + CollapseNonWord(x)
    decreases |a|
  {
    if a == [] {
      assert a + x == x;
    } else if IsWordChar(a[0]) {
      var t := a[1..];
      assert t == [] || t[|t| - 1] == a[|a| - 1];
      CollapseAppend(t, x);
      CollapseAppendWordStep(a, x);
    } else {
      DropLeadingKeepsLast(a);
      CollapseAppend(DropLeading(a, NonWord), x);
      CollapseAppendNonWordStep(a, x);
    }
  }

  /** The step of `CollapseAppend` past a leading word character. */
  lemma CollapseAppendWordStep(a: string, x: string)
    requires a != [] && IsWordChar(a[0])
    requires CollapseNonWord(a[1..] + x) == CollapseNonWord(a[1..]) + CollapseNonWord(x)
    ensures CollapseNonWord(a + x) == CollapseNonWord(a) + CollapseNonWord(x)
  {
    CollapseWordFirst(a, x);
    Regroup([a[0]], CollapseNonWord(a[1..]), CollapseNonWord(x));
  }

  /** The step of `CollapseAppend` past a leading non-word run. */
  lemma CollapseAppendNonWordStep(a: string, x: string)
    requires a != [] && !IsWordChar(a[0]) && DropLeading(a, NonWord) != []
    requires var d := DropLeading(a, NonWord);
             CollapseNonWord(d + x) == CollapseNonWord(d) + CollapseNonWord(x)
    ensures CollapseNonWord(a + x) == CollapseNonWord(a) + CollapseNonWord(x)
  {
    CollapseNonWordFirst(a, x);
    Regroup("-", CollapseNonWord(DropLeading(a, NonWord)), CollapseNonWord(x));
  }

  /** A leading run collapses to one dash. */
  lemma CollapseRunAtStart(w: string, b: string)
    requires |w| > 0 && NonWordRun(w)
    requires b == [] || IsWordChar(b[0])
    ensures CollapseNonWord(w + b) == "-" + CollapseNonWord(b)
  {
    assert (w + b)[0] == w[0];
    DropLeadingRun(w, b);
  }

  /** A leading word character is kept and collapsing goes on after it. */
  lemma CollapseWordFirst(a: string, x: string)
    requires a != [] && IsWordChar(a[0])
    ensures CollapseNonWord(a + x) == [a[0]] + CollapseNonWord(a[1..] + x)
    ensures CollapseNonWord(a) == [a[0]] + CollapseNonWord(a[1..])
  {
    assert (a + x)[0] == a[0] && (a + x)[1..] == a[1..] + x;
  }

  /** A leading non-word run inside `a`, which holds a word character, is
      one dash and collapsing goes on from the first word character. */
  lemma CollapseNonWordFirst(a: string, x: string)
    requires a != [] && !IsWordChar(a[0]) && DropLeading(a, NonWord) != []
    ensures CollapseNonWord(a + x) == "-" + CollapseNonWord(DropLeading(a, NonWord) + x)
    ensures CollapseNonWord(a) == "-" + CollapseNonWord(DropLeading(a, NonWord))
  {
    assert (a + x)[0] == a[0];
    DropLeadingAppend(a, x);
  }

  /** Collapsing twice equals collapsing once. */
  lemma CollapseIdempotent(s: string)
    ensures CollapseNonWord(CollapseNonWord(s)) == CollapseNonWord(s)
  {
    CollapseFixpoint(CollapseNonWord(s));
  }

  /** Python's `c.lower()` on ASCII; other characters are left alone. */
  function LowerChar(c: char): (r: char)
    ensures !('A' <= r <= 'Z')
    ensures 'A' <= c <= 'Z' ==> r as int == c as int + 32
    ensures IsWordChar(r) == IsWordChar(c)
    ensures !('A' <= c <= 'Z') ==> r == c
  {
    if 'A' <= c <= 'Z' then (c as int + 32) as char else c
  }

  /** Python's `s.lower()` on ASCII. */
  function Lower(s: string): (r: string)
    ensures |r| == |s|
    ensures forall i :: 0 <= i < |s| ==> r[i] == LowerChar(s[i])
    decreases |s|
  {
    if s == [] then [] else [LowerChar(s[0])] + Lower(s[1..])
  }

  lemma {:induction false} LowerDropNonWord(s: string)
    ensures DropLeading(Lower(s), NonWord) == Lower(DropLeading(s, NonWord))
    decreases |s|
  {
    var l := Lower(s);
    if s == [] {
      assert l == [];
    } else {
      assert l[0] == LowerChar(s[0]) && l[1..] == Lower(s[1..]);
      if IsNonWordChar(s[0]) {
        LowerDropNonWord(s[1..]);
        assert DropLeading(l, NonWord) == DropLeading(l[1..], NonWord);
      } else {
        assert DropLeading(l, NonWord) == l;
        assert DropLeading(s, NonWord) == s;
      }
    }
  }

  /** Lower-casing and collapsing commute. */
  lemma {:induction false} CollapseLower(s: string)
    ensures CollapseNonWord(Lower(s)) == Lower(CollapseNonWord(s))
    decreases |s|
  {
    if s == [] {
    } else {
      var l := Lower(s);
      assert l[0] == LowerChar(s[0]) && l[1..] == Lower(s[1..]);
      if IsWordChar(s[0]) {
        CollapseLower(s[1..]);
      } else {
        var t := DropLeading(s, NonWord);
        LowerDropNonWord(s);
        CollapseLower(t);
        assert Lower("-" + CollapseNonWord(t)) == "-" + Lower(CollapseNonWord(t));
      }
    }
  }

  /** `re.sub(r'\W+', '-', name).lower()`. */
  function Sanitize(name: string): string
  {
    Lower(CollapseNonWord(name))
  }

  /** A sanitised name holds only lower-case word characters and single
      dashes, and keeps the name's word characters, lowered, in order. */
  lemma SanitizeShape(name: string)
    ensures var r := Sanitize(name);
            (forall i :: 0 <= i < |r| ==> IsWordChar(r[i]) || r[i] == '-')
            && (forall i :: 0 <= i < |r| - 1 ==> !(r[i] == '-' && r[i + 1] == '-'))
            && (forall i :: 0 <= i < |r| ==> !('A' <= r[i] <= 'Z'))
            && WordChars(r) == Lower(WordChars(name))
  {
    var c := CollapseNonWord(name);
    CollapseKeepsWords(name);
    WordCharsLower(c);
  }

  lemma {:induction false} WordCharsLower(s: string)
    ensures WordChars(Lower(s)) == Lower(WordChars(s))
    decreases |s|
  {
    if s != [] {
      WordCharsLower(s[1..]);
      assert Lower(s)[1..] == Lower(s[1..]);
    }
  }

  lemma {:induction false} LowerIdempotent(s: string)
    ensures Lower(Lower(s)) == Lower(s)
  {
    assert forall i :: 0 <= i < |s| ==> Lower(Lower(s))[i] == Lower(s)[i];
  }

  /** Sanitising a sanitised name changes nothing. */
  lemma SanitizeIdempotent(name: string)
    ensures Sanitize(Sanitize(name)) == Sanitize(name)
  {
    var c := CollapseNonWord(name);
    CollapseLower(c);
    CollapseIdempotent(name);
    LowerIdempotent(c);
  }

  /** The output file name derived from a company name. */
  function FileName(name: string): string
  {
    Sanitize(name) + ".csv"
  }

  /** The file name is the sanitised name followed by `.csv`, and never
      holds two dashes in a row. */
  lemma FileNameShape(name: string)
    ensures var r := FileName(name);
            |r| >= 4 && r[|r| - 4..] == ".csv" && r[..|r| - 4] == Sanitize(name)
            && forall i :: 0 <= i < |r| - 1 ==> !(r[i] == '-' && r[i + 1] == '-')
  {
    SanitizeShape(name);
    var r, z := FileName(name), Sanitize(name);
    assert r[..|r| - 4] == z;
    forall i | 0 <= i < |r| - 1 ensures !(r[i] == '-' && r[i + 1] == '-') {
      if i + 1 < |z| {
        assert r[i] == z[i] && r[i + 1] == z[i + 1];
      }
    }
  }
}
