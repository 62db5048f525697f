/** The post form's slug transform: trim the title, lower-case it, delete
    every character outside `a-z`, `0-9` and whitespace, then replace each
    run of whitespace with a single hyphen. */
module Slug {
  import opened Backend
  import opened Seqs

  /** The characters ECMAScript's `trim` removes and its regular expression
      class `\s` matches: WhiteSpace and LineTerminator (sections 12.2 and
      12.3 of ECMA-262), the space separators of Unicode included. */
  predicate IsSpace(c: char)
  {
    if c < '\U{00A0}' then c == ' ' || '\t' <= c <= '\r'   // tab, line feed, vertical tab, form feed, carriage return
    else || c == '\U{00A0}' || c == '\U{1680}' || '\U{2000}' <= c <= '\U{200A}'
         || c == '\U{2028}' || c == '\U{2029}' || c == '\U{202F}' || c == '\U{205F}'
         || c == '\U{3000}' || c == '\U{FEFF}'
  }

  predicate IsLowerAlnum(c: char)
  {
    'a' <= c <= 'z' || '0' <= c <= '9'
  }

  /** The class `[a-z0-9\s]` that survives the first `replace`. */
  predicate Allowed(c: char)
  {
    IsLowerAlnum(c) || IsSpace(c)
  }

  /** The alphabet of a slug. */
  predicate SlugChar(c: char)
  {
    IsLowerAlnum(c) || c == '-'
  }

  predicate NotSpace(c: char)
  {
    !IsSpace(c)
  }

  predicate NotHyphen(c: char)
  {
    c != '-'
  }

  /** `toLowerCase` of one character, as far as it can reach the slug:
      ASCII capitals, U+0130 (which lower-cases to `i` and a combining dot)
      and U+212A KELVIN SIGN (which lower-cases to `k`). Every other
      character is kept as it is: its true lower case is either itself or a
      character the transform deletes anyway. */
  function LowerChar(c: char): string
  {
    if 'A' <= c <= 'Z' then [(c as int + 32) as char]
    else if c == '\U{0130}' then ['i', '\U{0307}']
    else if c == '\U{212A}' then ['k']
    else [c]
  }

  function Lower(s: string): string
  {
    if s == [] then [] else LowerChar(s[0]) + Lower(s[1..])
  }

  /** Drops leading whitespace; also what `\s+` consumes after its first character. */
  function TrimStart(s: string): (r: string)
    ensures |r| <= |s| && r == s[|s| - |r|..]
    ensures r != [] ==> !IsSpace(r[0])
  {
    if s != [] && IsSpace(s[0]) then TrimStart(s[1..]) else s
  }

  lemma {:induction false} TrimStartDropsSpaces(s: string)
    ensures forall i :: 0 <= i < |s| - |TrimStart(s)| ==> IsSpace(s[i])
  {
    if s != [] && IsSpace(s[0]) {
      TrimStartDropsSpaces(s[1..]);
    }
  }

  function TrimEnd(s: string): (r: string)
    ensures |r| <= |s| && r == s[..|r|]
    ensures r != [] ==> !IsSpace(r[|r| - 1])
  {
    if s != [] && IsSpace(s[|s| - 1]) then TrimEnd(s[..|s| - 1]) else s
  }

  lemma {:induction false} TrimEndDropsSpaces(s: string)
    ensures forall i :: |TrimEnd(s)| <= i < |s| ==> IsSpace(s[i])
  {
    if s != [] && IsSpace(s[|s| - 1]) {
      TrimEndDropsSpaces(s[..|s| - 1]);
    }
  }

  function Trim(s: string): string
  {
    TrimEnd(TrimStart(s))
  }

  /** `replace(/\s+/g, "-")`: each maximal run of whitespace becomes one hyphen. */
  function Hyphenate(s: string): string
    decreases |s|
  {
    if s == [] then []
    else if IsSpace(s[0]) then "-" + Hyphenate(TrimStart(s[1..]))
    else [s[0]] + Hyphenate(s[1..])
  }

  /** `value?.trim().toLowerCase().replace(/[^a-z0-9\s]/g, "").replace(/\s+/g, "-") || ""`;
      a missing value gives the empty slug. */
  function SlugTransform(value: Option<string>): string
  {
    match value
    case None => ""
    case Some(v) => Hyphenate(Filter(Lower(Trim(v)), Allowed))
  }

  function Dehyphen(s: string): string
  {
    Filter(s, NotHyphen)
  }

  /** The letters and digits of `s`, in order. */
  function AlnumOf(s: string): string
  {
    Filter(s, IsLowerAlnum)
  }

  ghost predicate NoDoubleHyphen(s: string)
  {
    forall i :: 0 <= i < |s| - 1 ==> !(s[i] == '-' && s[i + 1] == '-')
  }

  ghost predicate AllAllowed(s: string)
  {
    forall i :: 0 <= i < |s| ==> Allowed(s[i])
  }

  ghost predicate AllSlugChars(s: string)
  {
    forall i :: 0 <= i < |s| ==> SlugChar(s[i])
  }

  // ---------------------------------------------------------------------
  // Hyphenate on input that has passed the first replace

  lemma {:induction false} HyphenateAlphabet(s: string)
    requires AllAllowed(s)
    ensures AllSlugChars(Hyphenate(s))
    decreases |s|
  {
    if s != [] {
      if IsSpace(s[0]) {
        HyphenateAlphabet(TrimStart(s[1..]));
      } else {
        HyphenateAlphabet(s[1..]);
      }
    }
  }

  /** No two hyphens are adjacent, and a leading hyphen comes from leading whitespace. */
  lemma {:induction false} HyphenateSeparates(s: string)
    requires AllAllowed(s)
    ensures NoDoubleHyphen(Hyphenate(s))
    ensures Hyphenate(s) != [] && Hyphenate(s)[0] == '-' ==> IsSpace(s[0])
    decreases |s|
  {
    if s != [] {
      if IsSpace(s[0]) {
        var rest := TrimStart(s[1..]);
        HyphenateSeparates(rest);
        assert Hyphenate(s) == "-" + Hyphenate(rest);
      } else {
        HyphenateSeparates(s[1..]);
        assert Hyphenate(s) == [s[0]] + Hyphenate(s[1..]);
      }
    }
  }

  /** Text that is whitespace up to its end trims to nothing, whatever follows. */
  lemma {:induction false} TrimStartBlank(x: string, y: string)
    requires TrimStart(x) == []
    ensures TrimStart(x + y) == TrimStart(y)
  {
    if x == [] {
      assert x + y == y;
    } else {
      var xy := x + y;
      assert xy[0] == x[0];
      assert xy[1..] == x[1..] + y;
      TrimStartStep(x, x[1..]);
      TrimStartStep(xy, x[1..] + y);
      TrimStartBlank(x[1..], y);
    }
  }

  /** Once the whitespace in front of a non-space is dropped, what follows stays. */
  lemma {:induction false} TrimStartAppend(x: string, y: string)
    requires TrimStart(x) != []
    ensures TrimStart(x + y) == TrimStart(x) + y
  {
    var xy := x + y;
    assert xy[0] == x[0];
    if IsSpace(x[0]) {
      assert xy[1..] == x[1..] + y;
      TrimStartStep(x, x[1..]);
      TrimStartStep(xy, x[1..] + y);
      TrimStartAppend(x[1..], y);
    } else {
      TrimStartNoSpace(x);
      TrimStartNoSpace(xy);
    }
  }

  lemma TrimStartStep(s: string, r: string)
    requires s != [] && IsSpace(s[0]) && s[1..] == r
    ensures TrimStart(s) == TrimStart(r)
  {
  }

  lemma TrimStartSpaces(w: string)
    requires forall i :: 0 <= i < |w| ==> IsSpace(w[i])
    ensures TrimStart(w) == []
  {
  }

  /** Text whose whitespace runs to its end ends in whitespace. */
  lemma BlankTail(a: string)
    requires a != [] && IsSpace(a[0]) && TrimStart(a[1..]) == []
    ensures IsSpace(a[|a| - 1])
  {
    TrimStartDropsSpaces(a[1..]);
    if |a| > 1 {
      assert a[|a| - 1] == a[1..][|a| - 2];
    }
  }

  /** A slice drops its first character and keeps the last. */
  lemma TailLast(a: string)
    requires |a| > 1
    ensures a[1..][|a| - 2] == a[|a| - 1]
  {
  }

  lemma HyphenateSpaceStep(s: string)
    requires s != [] && IsSpace(s[0])
    ensures Hyphenate(s) == "-" + Hyphenate(TrimStart(s[1..]))
  {
  }

  lemma TrimStartNoSpace(b: string)
    requires b == [] || !IsSpace(b[0])
    ensures TrimStart(b) == b
  {
  }

  /** Whitespace to the end of `a` is one hyphen ... */
  lemma HyphenateAllBlank(a: string)
    requires a != [] && IsSpace(a[0]) && TrimStart(a[1..]) == []
    ensures Hyphenate(a) == "-"
  {
    HyphenateSpaceStep(a);
  }

  /** ... and in front of text that does not start with whitespace it is
      all the trim removes. */
  lemma TrimAfterBlank(a: string, b: string)
    requires a != [] && IsSpace(a[0]) && TrimStart(a[1..]) == []
    requires b == [] || !IsSpace(b[0])
    ensures (a + b) != [] && IsSpace((a + b)[0]) && TrimStart((a + b)[1..]) == b
  {
    assert (a + b)[1..] == a[1..] + b;
    TrimStartBlank(a[1..], b);
    TrimStartNoSpace(b);
  }

  lemma HyphenateSpaceThen(s: string, b: string)
    requires s != [] && IsSpace(s[0]) && TrimStart(s[1..]) == b
    ensures Hyphenate(s) == "-" + Hyphenate(b)
  {
    HyphenateSpaceStep(s);
  }

  lemma HyphenateCharThen(s: string, r: string)
    requires s != [] && !IsSpace(s[0]) && s[1..] == r
    ensures Hyphenate(s) == [s[0]] + Hyphenate(r)
  {
  }

  lemma TrimAfterSpace(a: string, b: string)
    requires a != [] && IsSpace(a[0]) && TrimStart(a[1..]) != []
    ensures (a + b) != [] && IsSpace((a + b)[0]) && TrimStart((a + b)[1..]) == TrimStart(a[1..]) + b
  {
    assert (a + b)[1..] == a[1..] + b;
    TrimStartAppend(a[1..], b);
  }

  lemma TrimStartLast(x: string)
    requires TrimStart(x) != []
    ensures TrimStart(x)[|TrimStart(x)| - 1] == x[|x| - 1]
  {
  }

  lemma AppendSpaceCase(a: string, b: string, t: string)
    requires a != [] && IsSpace(a[0]) && t == TrimStart(a[1..]) && t != []
    requires Hyphenate(t + b) == Hyphenate(t) + Hyphenate(b)
    ensures Hyphenate(a + b) == Hyphenate(a) + Hyphenate(b)
  {
    HyphenateSpaceThen(a, t);
    TrimAfterSpace(a, b);
    HyphenateSpaceThen(a + b, t + b);
    Assoc("-", Hyphenate(t), Hyphenate(b));
  }

  lemma AppendCharCase(a: string, b: string)
    requires a != [] && !IsSpace(a[0])
    requires Hyphenate(a[1..] + b) == Hyphenate(a[1..]) + Hyphenate(b)
    ensures Hyphenate(a + b) == Hyphenate(a) + Hyphenate(b)
  {
    HyphenateCharThen(a, a[1..]);
    assert (a + b)[1..] == a[1..] + b;
    HyphenateCharThen(a + b, a[1..] + b);
    Assoc([a[0]], Hyphenate(a[1..]), Hyphenate(b));
  }

  /** Hyphenating two pieces separately is hyphenating them together, unless
      a whitespace run straddles the boundary. */
  lemma {:induction false} HyphenateAppend(a: string, b: string)
    requires a == [] || b == [] || !IsSpace(a[|a| - 1]) || !IsSpace(b[0])
    ensures Hyphenate(a + b) == Hyphenate(a) + Hyphenate(b)
    decreases |a|
  {
    if a == [] {
      assert a + b == b;
    } else if IsSpace(a[0]) {
      var t := TrimStart(a[1..]);
      if t == [] {
        BlankTail(a);
        HyphenateAllBlank(a);
        TrimAfterBlank(a, b);
        HyphenateSpaceThen(a + b, b);
      } else {
        TrimStartLast(a[1..]);
        HyphenateAppend(t, b);
        AppendSpaceCase(a, b, t);
      }
    } else {
      if |a| > 1 {
        TailLast(a);
      }
      HyphenateAppend(a[1..], b);
      AppendCharCase(a, b);
    }
  }

  /** A run of whitespace on its own is one hyphen. */
  lemma HyphenateBlank(w: string)
    requires w != [] && forall i :: 0 <= i < |w| ==> IsSpace(w[i])
    ensures Hyphenate(w) == "-"
  {
    TrimStartSpaces(w[1..]);
  }

  /** `\s+`: each maximal run of whitespace, whatever its length, becomes
      exactly one hyphen, and the text on either side is hyphenated on its own. */
  lemma HyphenateRun(a: string, w: string, b: string)
    requires a == [] || !IsSpace(a[|a| - 1])
    requires w != [] && forall i :: 0 <= i < |w| ==> IsSpace(w[i])
    requires b == [] || !IsSpace(b[0])
    ensures Hyphenate(a + w + b) == Hyphenate(a) + "-" + Hyphenate(b)
  {
    var wb := w + b;
    HyphenateAppend(w, b);
    HyphenateBlank(w);
    assert wb[0] == w[0];
    HyphenateAppend(a, wb);
    Assoc(a, w, b);
    Assoc(Hyphenate(a), "-", Hyphenate(b));
  }

  lemma {:induction false} HyphenateEmpty(s: string)
    ensures Hyphenate(s) == [] <==> s == []
  {
  }

  lemma {:induction false} HyphenateNoSpace(s: string)
    requires forall i :: 0 <= i < |s| ==> !IsSpace(s[i])
    ensures Hyphenate(s) == s
    decreases |s|
  {
    if s != [] {
      HyphenateNoSpace(s[1..]);
      assert [s[0]] + s[1..] == s;
    }
  }

  lemma {:induction false} FilterNotSpaceTrimStart(s: string)
    ensures Filter(TrimStart(s), NotSpace) == Filter(s, NotSpace)
    decreases |s|
  {
    if s != [] && IsSpace(s[0]) {
      FilterNotSpaceTrimStart(s[1..]);
    }
  }

  /** Deleting the hyphens from the output gives the input without its whitespace. */
  lemma {:induction false} HyphenateDehyphen(s: string)
    requires AllAllowed(s)
    ensures Dehyphen(Hyphenate(s)) == Filter(s, NotSpace)
    decreases |s|
  {
    if s != [] {
      if IsSpace(s[0]) {
        var rest := TrimStart(s[1..]);
        HyphenateDehyphen(rest);
        FilterAppend("-", Hyphenate(rest), NotHyphen);
        FilterNotSpaceTrimStart(s[1..]);
      } else {
        HyphenateDehyphen(s[1..]);
        FilterAppend([s[0]], Hyphenate(s[1..]), NotHyphen);
      }
    }
  }

  // ---------------------------------------------------------------------
  // Lower and Trim

  lemma {:induction false} LowerAppend(a: string, b: string)
    ensures Lower(a + b) == Lower(a) + Lower(b)
  {
    if a == [] {
      assert a + b == b;
    } else {
      assert (a + b)[1..] == a[1..] + b;
      LowerAppend(a[1..], b);
    }
  }

  lemma {:induction false} LowerSlugChars(s: string)
    requires AllSlugChars(s)
    ensures Lower(s) == s
  {
    if s != [] {
      LowerSlugChars(s[1..]);
      assert [s[0]] + s[1..] == s;
    }
  }

  lemma {:induction false} LowerSpaces(s: string)
    requires forall i :: 0 <= i < |s| ==> IsSpace(s[i])
    ensures Lower(s) == s
  {
    if s != [] {
      LowerSpaces(s[1..]);
      assert [s[0]] + s[1..] == s;
    }
  }

  /** A character survives the first replace and then the letters-and-digits
      filter exactly when it is a letter or digit. */
  lemma LowerAllowed(l: string)
    ensures Filter(Filter(l, Allowed), IsLowerAlnum) == AlnumOf(l)
  {
    forall i | 0 <= i < |l| ensures IsLowerAlnum(l[i]) ==> Allowed(l[i]) { }
    FilterFilter(l, Allowed, IsLowerAlnum);
  }

  lemma AllSpacesSlice(s: string, lo: nat, hi: nat)
    requires lo <= hi <= |s|
    requires forall i :: lo <= i < hi ==> IsSpace(s[i])
    ensures forall i :: 0 <= i < |s[lo..hi]| ==> IsSpace(s[lo..hi][i])
  {
  }

  lemma TrimStartSplit(s: string) returns (pre: string)
    ensures s == pre + TrimStart(s)
    ensures forall i :: 0 <= i < |pre| ==> IsSpace(pre[i])
  {
    var t := TrimStart(s);
    pre := s[..|s| - |t|];
    SplitAt(s, |s| - |t|);
    TrimStartDropsSpaces(s);
    AllSpacesSlice(s, 0, |s| - |t|);
    assert pre == s[0..|s| - |t|];
  }

  lemma TrimEndSplit(t: string) returns (post: string)
    ensures t == TrimEnd(t) + post
    ensures forall i :: 0 <= i < |post| ==> IsSpace(post[i])
  {
    var m := TrimEnd(t);
    post := t[|m|..];
    SplitAt(t, |m|);
    TrimEndDropsSpaces(t);
    AllSpacesSlice(t, |m|, |t|);
    assert post == t[|m|..|t|];
  }

  /** `Trim(s)` is `s` with the whole run of whitespace removed from each
      end: what is left neither starts nor ends with whitespace. */
  lemma TrimSplit(s: string) returns (pre: string, post: string)
    ensures s == pre + Trim(s) + post
    ensures forall i :: 0 <= i < |pre| ==> IsSpace(pre[i])
    ensures forall i :: 0 <= i < |post| ==> IsSpace(post[i])
    ensures Trim(s) == [] || (!IsSpace(Trim(s)[0]) && !IsSpace(Trim(s)[|Trim(s)| - 1]))
  {
    pre := TrimStartSplit(s);
    post := TrimEndSplit(TrimStart(s));
    Assoc(pre, Trim(s), post);
    var t := TrimStart(s);
    if Trim(s) != [] {
      assert Trim(s)[0] == t[0];
    }
  }

  lemma {:induction false} AlnumOfSpaces(s: string)
    requires forall i :: 0 <= i < |s| ==> IsSpace(s[i])
    ensures AlnumOf(s) == []
  {
    if s != [] {
      AlnumOfSpaces(s[1..]);
    }
  }

  /** Trimming never removes a letter or digit. */
  lemma AlnumOfTrim(s: string)
    ensures AlnumOf(Lower(Trim(s))) == AlnumOf(Lower(s))
  {
    var pre, post := TrimSplit(s);
    LowerAppend(pre + Trim(s), post);
    LowerAppend(pre, Trim(s));
    LowerSpaces(pre);
    LowerSpaces(post);
    FilterAppend(pre + Lower(Trim(s)), post, IsLowerAlnum);
    FilterAppend(pre, Lower(Trim(s)), IsLowerAlnum);
    AlnumOfSpaces(pre);
    AlnumOfSpaces(post);
  }

  lemma TrimNoSpaceEnds(s: string)
    requires s != [] ==> !IsSpace(s[0]) && !IsSpace(s[|s| - 1])
    ensures Trim(s) == s
  {
  }

  // ---------------------------------------------------------------------
  // Properties of the transform

  /** Every character of a slug is `a-z`, `0-9` or `-`. */
  lemma SlugAlphabet(value: Option<string>)
    ensures AllSlugChars(SlugTransform(value))
  {
    if value.Some? {
      FilterKept(Lower(Trim(value.value)), Allowed);
      HyphenateAlphabet(Filter(Lower(Trim(value.value)), Allowed));
    }
  }

  /** A slug never holds two adjacent hyphens. */
  lemma SlugNoDoubleHyphen(value: Option<string>)
    ensures NoDoubleHyphen(SlugTransform(value))
  {
    if value.Some? {
      FilterKept(Lower(Trim(value.value)), Allowed);
      HyphenateSeparates(Filter(Lower(Trim(value.value)), Allowed));
    }
  }

  /** Deleting the hyphens from a slug gives the text that reached the
      second replace without its whitespace. */
  lemma SlugDehyphen(v: string)
    ensures Dehyphen(SlugTransform(Some(v))) == Filter(Filter(Lower(Trim(v)), Allowed), NotSpace)
  {
    FilterKept(Lower(Trim(v)), Allowed);
    HyphenateDehyphen(Filter(Lower(Trim(v)), Allowed));
  }

  /** What survives the first replace, less its whitespace, is the letters and digits. */
  lemma AllowedLessSpace(l: string)
    ensures Filter(Filter(l, Allowed), NotSpace) == AlnumOf(l)
  {
    var t := Filter(l, Allowed);
    FilterKept(l, Allowed);
    FilterCongruent(t, NotSpace, IsLowerAlnum);
    LowerAllowed(l);
  }

  /** Deleting the hyphens from a slug gives exactly the letters and digits of
      the lower-cased input, in order. */
  lemma SlugKeepsAlnum(v: string)
    ensures Dehyphen(SlugTransform(Some(v))) == AlnumOf(Lower(v))
  {
    SlugDehyphen(v);
    AllowedLessSpace(Lower(Trim(v)));
    AlnumOfTrim(v);
  }

  /** The slug is empty exactly when nothing of the trimmed, lower-cased
      input is a letter, a digit or whitespace. */
  lemma SlugEmpty(v: string)
    ensures SlugTransform(Some(v)) == "" <==> forall c :: c in Lower(Trim(v)) ==> !Allowed(c)
  {
    var l := Lower(Trim(v));
    var t := Filter(l, Allowed);
    assert SlugTransform(Some(v)) == Hyphenate(t);
    HyphenateEmpty(t);
    if t != [] {
      FilterMembers(l, Allowed, t[0]);
    } else {
      forall c | c in l ensures !Allowed(c) {
        FilterMembers(l, Allowed, c);
      }
    }
  }

  lemma LowerTrimChars(v: string)
    ensures forall c :: c in Lower(Trim(v)) ==> c in Lower(v)
  {
    var pre, post := TrimSplit(v);
    LowerAppend(pre + Trim(v), post);
    LowerAppend(pre, Trim(v));
  }

  /** A missing value, the empty string, and input without any letter, digit
      or whitespace all give the empty slug. */
  lemma SlugEmptyCases(v: string)
    ensures SlugTransform(None) == "" && SlugTransform(Some("")) == ""
    ensures (forall c :: c in Lower(v) ==> !Allowed(c)) ==> SlugTransform(Some(v)) == ""
  {
    SlugEmpty("");
    SlugEmpty(v);
    LowerTrimChars(v);
  }

  lemma {:induction false} SlugCharsFilter(w: string)
    requires AllSlugChars(w)
    ensures Filter(w, Allowed) == Dehyphen(w)
    ensures forall i :: 0 <= i < |Dehyphen(w)| ==> !IsSpace(Dehyphen(w)[i])
  {
    FilterCongruent(w, Allowed, NotHyphen);
    var d := Dehyphen(w);
    forall i | 0 <= i < |d| ensures !IsSpace(d[i]) {
      FilterMembers(w, NotHyphen, d[i]);
    }
  }

  lemma TrimSlugChars(w: string)
    requires AllSlugChars(w)
    ensures Trim(w) == w
  {
    TrimNoSpaceEnds(w);
  }

  /** A string of slug characters is its own slug with the hyphens deleted. */
  lemma SlugOfSlugChars(w: string)
    requires AllSlugChars(w)
    ensures SlugTransform(Some(w)) == Dehyphen(w)
  {
    TrimSlugChars(w);
    LowerSlugChars(w);
    SlugCharsFilter(w);
    HyphenateNoSpace(Dehyphen(w));
  }

  /** Applying the transform to its own output deletes every hyphen. */
  lemma SlugReapply(value: Option<string>)
    ensures SlugTransform(Some(SlugTransform(value))) == Dehyphen(SlugTransform(value))
  {
    SlugAlphabet(value);
    SlugOfSlugChars(SlugTransform(value));
  }

  /** So the transform is idempotent on an output exactly when it has no hyphen. */
  lemma SlugIdempotentIff(value: Option<string>)
    ensures SlugTransform(Some(SlugTransform(value))) == SlugTransform(value)
            <==> '-' !in SlugTransform(value)
  {
    var s := SlugTransform(value);
    SlugReapply(value);
    if '-' in s {
      var k :| 0 <= k < |s| && s[k] == '-';
      FilterShrinks(s, NotHyphen, k);
    } else {
      FilterKeepsAll(s, NotHyphen);
    }
  }

  lemma SlugCharsSnoc(s: string, c: char)
    requires AllSlugChars(s) && IsLowerAlnum(c)
    ensures AllSlugChars(s + [c])
  {
    assert forall i :: 0 <= i < |s| ==> (s + [c])[i] == s[i];
  }

  lemma DehyphenSnoc(s: string, c: char)
    requires IsLowerAlnum(c)
    ensures Dehyphen(s + [c]) == Dehyphen(s) + [c]
  {
    FilterAppend(s, [c], NotHyphen);
    assert Filter([c], NotHyphen) == [c];
  }

  lemma RetypeSlugChars(s: string, c: char)
    requires AllSlugChars(s) && IsLowerAlnum(c)
    ensures SlugTransform(Some(s + [c])) == Dehyphen(s) + [c]
  {
    SlugCharsSnoc(s, c);
    SlugOfSlugChars(s + [c]);
    DehyphenSnoc(s, c);
  }

  /** Typing one more letter or digit at the end of a slug field re-derives
      the slug from the whole field, deleting the hyphens already there. */
  lemma SlugRetype(value: Option<string>, c: char)
    requires IsLowerAlnum(c)
    ensures SlugTransform(Some(SlugTransform(value) + [c])) == Dehyphen(SlugTransform(value)) + [c]
  {
    SlugAlphabet(value);
    RetypeSlugChars(SlugTransform(value), c);
  }

  // ---------------------------------------------------------------------
  // Titles made of words, punctuation and spaces

  /** Characters `LowerChar` leaves as they are. */
  predicate LowerFixed(c: char)
  {
    !('A' <= c <= 'Z') && c != '\U{0130}' && c != '\U{212A}'
  }

  lemma {:induction false} LowerFixedChars(s: string)
    requires forall i :: 0 <= i < |s| ==> LowerFixed(s[i])
    ensures Lower(s) == s
  {
    if s != [] {
      LowerFixedChars(s[1..]);
      assert [s[0]] + s[1..] == s;
    }
  }

  /** The first two steps after the trim: lower-case, then delete what is not allowed. */
  function Clean(s: string): string
  {
    Filter(Lower(s), Allowed)
  }

  lemma CleanAppend(a: string, b: string)
    ensures Clean(a + b) == Clean(a) + Clean(b)
  {
    LowerAppend(a, b);
    FilterAppend(Lower(a), Lower(b), Allowed);
  }

  predicate IsAsciiAlnum(c: char)
  {
    'A' <= c <= 'Z' || IsLowerAlnum(c)
  }

  /** A non-empty run of ASCII letters and digits, in either case. */
  ghost predicate TitleWord(w: string)
  {
    w != [] && forall i :: 0 <= i < |w| ==> IsAsciiAlnum(w[i])
  }

  /** A non-empty run of lower-case letters and digits. */
  ghost predicate Word(w: string)
  {
    w != [] && forall i :: 0 <= i < |w| ==> IsLowerAlnum(w[i])
  }

  /** Characters the transform deletes and lower-casing keeps. */
  ghost predicate Punctuation(p: string)
  {
    p != [] && forall i :: 0 <= i < |p| ==> LowerFixed(p[i]) && !Allowed(p[i])
  }

  lemma {:induction false} LowerAsciiAlnum(w: string)
    requires forall i :: 0 <= i < |w| ==> IsAsciiAlnum(w[i])
    ensures |Lower(w)| == |w|
    ensures forall i :: 0 <= i < |Lower(w)| ==> IsLowerAlnum(Lower(w)[i])
  {
    if w != [] {
      LowerAsciiAlnum(w[1..]);
      assert Lower(w) == LowerChar(w[0]) + Lower(w[1..]);
    }
  }

  /** A title word comes out of the first two steps lower-cased and whole. */
  lemma CleanTitleWord(w: string)
    requires TitleWord(w)
    ensures Word(Lower(w)) && Clean(w) == Lower(w)
  {
    LowerAsciiAlnum(w);
    FilterKeepsAll(Lower(w), Allowed);
  }

  lemma CleanPunctuation(p: string)
    requires Punctuation(p)
    ensures Clean(p) == []
  {
    LowerFixedChars(p);
    FilterDropsAll(p, Allowed);
  }

  lemma CleanSpace()
    ensures Clean(" ") == " "
  {
  }

  lemma WordNoSpace(w: string)
    requires Word(w)
    ensures w != [] && !IsSpace(w[0]) && !IsSpace(w[|w| - 1])
    ensures Hyphenate(w) == w
  {
    HyphenateNoSpace(w);
  }

  /** Three space-separated words become three hyphen-separated words. */
  lemma HyphenateWords(a: string, b: string, c: string)
    requires Word(a) && Word(b) && Word(c)
    ensures Hyphenate(a + " " + b + " " + c) == a + "-" + b + "-" + c
  {
    WordNoSpace(a);
    WordNoSpace(b);
    WordNoSpace(c);
    HyphenateRun(a, " ", b);
    var ab := a + " " + b;
    assert ab[|ab| - 1] == b[|b| - 1];
    HyphenateRun(ab, " ", c);
  }

  /** A word followed by punctuation and a space keeps the word, lower-cased,
      and the space. */
  lemma CleanLead(a: string, p: string)
    requires TitleWord(a) && Punctuation(p)
    ensures Clean(a + p + " ") == Lower(a) + " "
  {
    CleanAppend(a + p, " ");
    CleanAppend(a, p);
    CleanTitleWord(a);
    CleanPunctuation(p);
    CleanSpace();
    assert Lower(a) + [] == Lower(a);
  }

  /** The first two steps keep the words of a three-word title, lower-cased,
      and the spaces between them. */
  lemma CleanTitle(a: string, p: string, b: string, q: string, c: string)
    requires TitleWord(a) && TitleWord(b) && TitleWord(c) && Punctuation(p) && Punctuation(q)
    ensures Clean(a + p + " " + (b + q + " ") + c) == Lower(a) + " " + (Lower(b) + " ") + Lower(c)
  {
    CleanAppend(a + p + " " + (b + q + " "), c);
    CleanAppend(a + p + " ", b + q + " ");
    CleanLead(a, p);
    CleanLead(b, q);
    CleanTitleWord(c);
  }

  lemma TitleEnds(v: string, a: string, c: string)
    requires TitleWord(a) && TitleWord(c) && |v| >= |a| + |c|
    requires v[..|a|] == a && v[|v| - |c|..] == c
    ensures Trim(v) == v
  {
    assert v[0] == a[0] && v[|v| - 1] == c[|c| - 1];
    TrimNoSpaceEnds(v);
  }

  /** Three words, each followed by punctuation and a space except the last:
      the slug is the three words lower-cased and joined by hyphens. */
  lemma SlugOfTitle(a: string, p: string, b: string, q: string, c: string)
    requires TitleWord(a) && TitleWord(b) && TitleWord(c) && Punctuation(p) && Punctuation(q)
    ensures SlugTransform(Some(a + p + " " + (b + q + " ") + c)) == Lower(a) + "-" + Lower(b) + "-" + Lower(c)
  {
    var x, y := a + p + " ", b + q + " ";
    var v := x + y + c;
    assert v[..|a|] == a && v[|v| - |c|..] == c;
    TitleEnds(v, a, c);
    CleanTitle(a, p, b, q, c);
    CleanTitleWord(a);
    CleanTitleWord(b);
    CleanTitleWord(c);
    Assoc(Lower(a) + " ", Lower(b), " ");
    HyphenateWords(Lower(a), Lower(b), Lower(c));
  }

  // The example title, split into its words and punctuation.

  lemma TitleExampleSplit(v: string, a: string, p: string, b: string, q: string, c: string)
    requires v == "Hello, World! 2024"
    requires a == "Hello" && p == "," && b == "World" && q == "!" && c == "2024"
    ensures v == a + p + " " + (b + q + " ") + c
  {
  }

  /** A capital followed by characters lower-casing keeps: only the capital changes. */
  lemma LowerCapitalized(w: string)
    requires w != [] && 'A' <= w[0] <= 'Z'
    requires forall i :: 1 <= i < |w| ==> LowerFixed(w[i])
    ensures Lower(w) == [(w[0] as int + 32) as char] + w[1..]
  {
    LowerFixedChars(w[1..]);
  }

  lemma TitleExampleLower(a: string, b: string, c: string)
    requires a == "Hello" && b == "World" && c == "2024"
    ensures Lower(a) == "hello" && Lower(b) == "world" && Lower(c) == "2024"
  {
    LowerCapitalized(a);
    LowerCapitalized(b);
    LowerFixedChars(c);
  }

  lemma TitleExampleJoin(a: string, b: string, c: string)
    requires a == "hello" && b == "world" && c == "2024"
    ensures a + "-" + b + "-" + c == "hello-world-2024"
  {
  }

  /** The title `Hello, World! 2024` gives the slug `hello-world-2024`. */
  lemma SlugExampleTitle(v: string)
    requires v == "Hello, World! 2024"
    ensures SlugTransform(Some(v)) == "hello-world-2024"
  {
    var a, p, b, q, c := "Hello", ",", "World", "!", "2024";
    TitleExampleSplit(v, a, p, b, q, c);
    TitleExampleLower(a, b, c);
    SlugOfTitle(a, p, b, q, c);
    TitleExampleJoin(Lower(a), Lower(b), Lower(c));
  }

  /** Punctuation and a space in front of a word keep only the space and the word. */
  lemma CleanLeadingPunctuation(p: string, w: string)
    requires Punctuation(p) && Word(w)
    ensures Clean(p + " " + w) == " " + w
  {
    CleanAppend(p + " ", w);
    CleanAppend(p, " ");
    CleanPunctuation(p);
    CleanSpace();
    assert TitleWord(w);
    CleanTitleWord(w);
    LowerSlugChars(w);
    assert [] + " " == " ";
  }

  lemma HyphenateLeadingSpace(w: string)
    requires Word(w)
    ensures Hyphenate(" " + w) == "-" + w
  {
    WordNoSpace(w);
    HyphenateRun([], " ", w);
    assert [] + " " == " ";
  }

  /** Punctuation, a space and a word: the trim keeps the space, because
      the punctuation is only deleted after it, so the slug starts with a
      hyphen. */
  lemma SlugLeadingHyphen(p: string, w: string)
    requires Punctuation(p) && Word(w)
    ensures SlugTransform(Some(p + " " + w)) == "-" + w
  {
    var v := p + " " + w;
    assert v[0] == p[0] && v[|v| - 1] == w[|w| - 1];
    TrimNoSpaceEnds(v);
    CleanLeadingPunctuation(p, w);
    HyphenateLeadingSpace(w);
  }

  /** Punctuation, a space and punctuation: the only character left is the
      inner space, so the slug is one hyphen, not empty. */
  lemma SlugInnerSpace(p: string, q: string)
    requires Punctuation(p) && Punctuation(q)
    ensures SlugTransform(Some(p + " " + q)) == "-"
  {
    var v := p + " " + q;
    assert v[0] == p[0] && v[|v| - 1] == q[|q| - 1];
    TrimNoSpaceEnds(v);
    CleanAppend(p + " ", q);
    CleanAppend(p, " ");
    CleanPunctuation(p);
    CleanPunctuation(q);
    CleanSpace();
    assert [] + " " + [] == " ";
    HyphenateBlank(" ");
  }

  /** `! hi` gives `-hi`. */
  lemma SlugExampleLeadingHyphen(v: string)
    requires v == "! hi"
    ensures SlugTransform(Some(v)) == "-hi"
  {
    assert v == "!" + " " + "hi";
    assert Punctuation("!") && Word("hi");
    SlugLeadingHyphen("!", "hi");
  }

  /** A title of nothing but spaces gives the empty slug. */
  lemma SlugExampleBlank(v: string)
    requires v == "   "
    ensures SlugTransform(Some(v)) == ""
  {
  }
}
