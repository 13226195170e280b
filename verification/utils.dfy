/** The string helpers of lib/utils.ts: reading time and slugs. */
module Utils {
  import opened Strings
  import opened Seqs

  /** `s.length`: JavaScript counts UTF-16 code units, two for a character outside the Basic Multilingual Plane. */
  function Utf16Length(s: string): (n: nat)
    ensures |s| <= n <= 2 * |s|
  {
    if s == [] then 0 else (if s[0] as int >= 0x1_0000 then 2 else 1) + Utf16Length(s[1..])
  }

  const WordsPerMinute: nat := 200

  /** `calculateReadingTime`: `Math.ceil(content.length / 200)` minutes. */
  function ReadingTime(content: string): (minutes: nat)
    ensures minutes * WordsPerMinute >= Utf16Length(content)
    ensures (minutes - 1) * WordsPerMinute < Utf16Length(content)
    ensures content == [] ==> minutes == 0
  {
    (Utf16Length(content) + WordsPerMinute - 1) / WordsPerMinute
  }

  lemma Utf16LengthAppend(a: string, b: string)
    ensures Utf16Length(a + b) == Utf16Length(a) + Utf16Length(b)
  {
    if a != [] {
      assert (a + b)[1..] == a[1..] + b;
      Utf16LengthAppend(a[1..], b);
    } else {
      assert a + b == b;
    }
  }

  /** A longer text never reads faster: appending to the content never lowers the reading time. */
  lemma ReadingTimeMonotone(a: string, b: string)
    ensures ReadingTime(a) <= ReadingTime(a + b)
  {
    Utf16LengthAppend(a, b);
  }

  /** Characters `[\s_-]`: runs of them become one `-`. */
  predicate IsSeparator(c: char) {
    IsSpace(c) || c == '_' || c == '-'
  }

  predicate IsAlnum(c: char) {
    'a' <= c <= 'z' || 'A' <= c <= 'Z' || '0' <= c <= '9'
  }

  /** A character `[^\w\s-]` does not match, so it survives the second step. */
  predicate Kept(c: char) {
    IsWordChar(c) || IsSpace(c) || c == '-'
  }

  /** `.replace(/[^\w\s-]/g, '')`. */
  function RemoveDisallowed(s: string): (r: string)
    ensures forall i :: 0 <= i < |r| ==> Kept(r[i])
  {
    Filter(s, Kept)
  }

  /** The leading run of separators removed. */
  function DropSeparators(s: string): (r: string)
    ensures |r| <= |s| && r == s[|s| - |r|..]
    ensures r == [] || !IsSeparator(r[0])
    ensures forall i :: 0 <= i < |s| - |r| ==> IsSeparator(s[i])
  {
    if s != [] && IsSeparator(s[0]) then DropSeparators(s[1..]) else s
  }

  /**
   * What collapsing promises about its result `r` for the input `s`: no white space and no `_` is left,
   * every other character than `-` comes from `s`, no two dashes stand together, `r` starts with `-`
   * exactly when `s` starts with a separator, and `r` is empty only when `s` is.
   */
  predicate Collapsed(s: string, r: string) {
    && (forall i :: 0 <= i < |r| ==> !IsSpace(r[i]) && r[i] != '_')
    && (forall i :: 0 <= i < |r| && r[i] != '-' ==> r[i] in s)
    && (forall i :: 0 <= i < |r| - 1 ==> !(r[i] == '-' && r[i + 1] == '-'))
    && (r != [] && s != [] ==> (r[0] == '-' <==> IsSeparator(s[0])))
    && (r == [] <==> s == [])
  }

  /** `.replace(/[\s_-]+/g, '-')`: each maximal run of separators becomes one `-`. */
  function CollapseSeparators(s: string): (r: string)
    ensures Collapsed(s, r)
    decreases |s|
  {
    if s == [] then []
    else if IsSeparator(s[0]) then
      var rest := DropSeparators(s);
      var c := CollapseSeparators(rest);
      CollapseRun(s, rest, c);
      "-" + c
    else
      var c := CollapseSeparators(s[1..]);
      CollapseOther(s, c);
      [s[0]] + c
  }

  /** A leading run of separators, followed by the collapsed rest, collapses `s`. */
  lemma CollapseRun(s: string, rest: string, c: string)
    requires s != [] && IsSeparator(s[0])
    requires |rest| <= |s| && rest == s[|s| - |rest|..] && (rest == [] || !IsSeparator(rest[0]))
    requires Collapsed(rest, c)
    ensures Collapsed(s, "-" + c)
  {
    var r := "-" + c;
    assert forall i :: 0 < i < |r| ==> r[i] == c[i - 1];
    forall i | 0 <= i < |c| && c[i] != '-'
      ensures c[i] in s
    {
      var j :| 0 <= j < |rest| && rest[j] == c[i];
      assert s[|s| - |rest| + j] == c[i];
    }
  }

  /** A first character that is not a separator, followed by the collapsed rest, collapses `s`. */
  lemma CollapseOther(s: string, c: string)
    requires s != [] && !IsSeparator(s[0])
    requires Collapsed(s[1..], c)
    ensures Collapsed(s, [s[0]] + c)
  {
    var r := [s[0]] + c;
    assert forall i :: 0 < i < |r| ==> r[i] == c[i - 1];
    forall i | 0 <= i < |c| && c[i] != '-'
      ensures c[i] in s
    {
      var j :| 0 <= j < |s[1..]| && s[1..][j] == c[i];
      assert s[1 + j] == c[i];
    }
  }

  predicate AllDashes(s: string) {
    forall i :: 0 <= i < |s| ==> s[i] == '-'
  }

  /**
   * `.replace(/^-+|-+$/g, '')`: `s` is a run of dashes, then `r`, then a run of dashes, and `r` neither
   * starts nor ends with a dash; the dashes inside `r` stay.
   */
  function TrimDashes(s: string): (r: string)
    ensures |r| <= |s|
    ensures r == [] || (r[0] != '-' && r[|r| - 1] != '-')
    ensures exists a, b :: AllDashes(a) && AllDashes(b) && s == a + r + b
  {
    var t := DropLeadingDashes(s);
    var r := DropTrailingDashes(t);
    var a, b := s[..|s| - |t|], t[|r|..];
    assert AllDashes(a) && AllDashes(b);
    assert s == a + r + b;
    r
  }

  function DropLeadingDashes(s: string): (r: string)
    ensures |r| <= |s| && r == s[|s| - |r|..]
    ensures r == [] || r[0] != '-'
    ensures forall i :: 0 <= i < |s| - |r| ==> s[i] == '-'
  {
    if s != [] && s[0] == '-' then DropLeadingDashes(s[1..]) else s
  }

  function DropTrailingDashes(s: string): (r: string)
    ensures |r| <= |s| && r == s[..|r|]
    ensures r == [] || r[|r| - 1] != '-'
    ensures r != [] ==> r[0] == s[0]
    ensures forall i :: |r| <= i < |s| ==> s[i] == '-'
  {
    if s != [] && s[|s| - 1] == '-' then DropTrailingDashes(s[..|s| - 1]) else s
  }

  /** The split `TrimDashes` promises is the only one: its result is determined. */
  lemma TrimmedUnique(s: string, a: string, r: string, b: string)
    requires AllDashes(a) && AllDashes(b) && s == a + r + b
    requires r == [] || (r[0] != '-' && r[|r| - 1] != '-')
    ensures r == TrimDashes(s)
  {
    if r == [] {
      assert s == (a + b) + [];
      LeadingRun(s, a + b, []);
    } else {
      assert s == a + (r + b);
      LeadingRun(s, a, r + b);
      TrailingRun(r + b, r, b);
    }
  }

  lemma {:induction false} LeadingRun(s: string, a: string, t: string)
    requires AllDashes(a) && s == a + t && (t == [] || t[0] != '-')
    ensures DropLeadingDashes(s) == t
  {
    if a != [] {
      assert s[1..] == a[1..] + t;
      LeadingRun(s[1..], a[1..], t);
    } else {
      assert s == t;
    }
  }

  lemma {:induction false} TrailingRun(s: string, t: string, b: string)
    requires AllDashes(b) && s == t + b && (t == [] || t[|t| - 1] != '-')
    ensures DropTrailingDashes(s) == t
    decreases |b|
  {
    if b != [] {
      assert s[..|s| - 1] == t + b[..|b| - 1];
      TrailingRun(s[..|s| - 1], t, b[..|b| - 1]);
    } else {
      assert s == t;
    }
  }

  /** `slugify`. */
  function Slugify(s: string): string {
    TrimDashes(CollapseSeparators(RemoveDisallowed(Lower(s))))
  }

  /** The shape of every slug: lowercase letters, digits and single inner dashes. */
  predicate IsSlug(s: string) {
    && (forall i :: 0 <= i < |s| ==> 'a' <= s[i] <= 'z' || '0' <= s[i] <= '9' || s[i] == '-')
    && (s == [] || (s[0] != '-' && s[|s| - 1] != '-'))
    && (forall i :: 0 <= i < |s| - 1 ==> !(s[i] == '-' && s[i + 1] == '-'))
  }

  predicate IsSlugChar(c: char) {
    'a' <= c <= 'z' || '0' <= c <= '9' || c == '-'
  }

  /** After lowercasing and removal, only lowercase letters, digits, `_`, white space and `-` remain. */
  lemma RemovedLowered(s: string)
    ensures forall i :: 0 <= i < |RemoveDisallowed(Lower(s))| ==>
      IsSlugChar(RemoveDisallowed(Lower(s))[i]) || IsSeparator(RemoveDisallowed(Lower(s))[i])
  {
    var l := Lower(s);
    var k := RemoveDisallowed(l);
    forall i | 0 <= i < |k|
      ensures IsSlugChar(k[i]) || IsSeparator(k[i])
    {
      assert k[i] in l;
      assert Kept(k[i]);
    }
  }

  /** Collapsing turns every separator into `-`. */
  lemma CollapsedChars(k: string)
    requires forall i :: 0 <= i < |k| ==> IsSlugChar(k[i]) || IsSeparator(k[i])
    ensures forall i :: 0 <= i < |CollapseSeparators(k)| ==> IsSlugChar(CollapseSeparators(k)[i])
  {
    var c := CollapseSeparators(k);
    forall i | 0 <= i < |c|
      ensures IsSlugChar(c[i])
    {
      if c[i] != '-' {
        assert c[i] in k;
      }
    }
  }

  /** Every output of `slugify` has the shape of a slug. */
  lemma SlugifyIsSlug(s: string)
    ensures IsSlug(Slugify(s))
  {
    var k := RemoveDisallowed(Lower(s));
    RemovedLowered(s);
    CollapsedChars(k);
    var c := CollapseSeparators(k);
    var t := DropLeadingDashes(c);
    var r := DropTrailingDashes(t);
    TrimmedSlug(c, t, r);
  }

  /** Cutting the dashes off both ends of collapsed slug characters leaves a slug. */
  lemma TrimmedSlug(c: string, t: string, r: string)
    requires forall i :: 0 <= i < |c| ==> IsSlugChar(c[i])
    requires forall i :: 0 <= i < |c| - 1 ==> !(c[i] == '-' && c[i + 1] == '-')
    requires |t| <= |c| && t == c[|c| - |t|..] && (t == [] || t[0] != '-')
    requires |r| <= |t| && r == t[..|r|] && (r == [] || r[|r| - 1] != '-') && (r != [] ==> r[0] == t[0])
    ensures IsSlug(r)
  {
    var d := |c| - |t|;
    assert forall i :: 0 <= i < |r| ==> r[i] == c[d + i];
  }

  /** On a slug, every step of `slugify` changes nothing. */
  lemma SlugifyFixesSlugs(s: string)
    requires IsSlug(s)
    ensures Slugify(s) == s
  {
    SlugSteps(s);
    SlugifyOfFixedPoint(s);
  }

  /** On a slug, each step of `slugify` on its own changes nothing. */
  lemma SlugSteps(s: string)
    requires IsSlug(s)
    ensures Lower(s) == s && RemoveDisallowed(s) == s && CollapseSeparators(s) == s && TrimDashes(s) == s
  {
    SlugCharsPlain(s);
    LowerOfLowercase(s);
    FilterAll(s, Kept);
    CollapseSingleDashes(s);
    TrimDashesKeeps(s);
  }

  /** Slug characters are not upper case, are kept by the removal step and are not white space or `_`. */
  lemma SlugCharsPlain(s: string)
    requires forall i :: 0 <= i < |s| ==> IsSlugChar(s[i])
    ensures forall i :: 0 <= i < |s| ==> !IsUpper(s[i]) && Kept(s[i]) && !IsSpace(s[i]) && s[i] != '_'
  {
    forall i | 0 <= i < |s|
      ensures !IsUpper(s[i]) && Kept(s[i]) && !IsSpace(s[i]) && s[i] != '_'
    {
      SlugCharPlain(s[i]);
    }
  }

  lemma SlugCharPlain(c: char)
    requires IsSlugChar(c)
    ensures !IsUpper(c) && Kept(c) && !IsSpace(c) && c != '_'
  {
  }

  lemma SlugifyOfFixedPoint(s: string)
    requires Lower(s) == s && RemoveDisallowed(s) == s && CollapseSeparators(s) == s && TrimDashes(s) == s
    ensures Slugify(s) == s
  {
  }

  lemma TrimDashesKeeps(s: string)
    requires s == [] || (s[0] != '-' && s[|s| - 1] != '-')
    ensures TrimDashes(s) == s
  {
    assert DropLeadingDashes(s) == s;
    assert DropTrailingDashes(s) == s;
  }


  lemma {:induction false} FilterAll(s: string, p: char -> bool)
    requires forall i :: 0 <= i < |s| ==> p(s[i])
    ensures Filter(s, p) == s
  {
    if s != [] {
      FilterAll(s[1..], p);
    }
  }

  /** Without whitespace and `_`, and with no two dashes in a row, collapsing changes nothing. */
  lemma {:induction false} CollapseSingleDashes(s: string)
    requires forall i :: 0 <= i < |s| ==> !IsSpace(s[i]) && s[i] != '_'
    requires forall i :: 0 <= i < |s| - 1 ==> !(s[i] == '-' && s[i + 1] == '-')
    ensures CollapseSeparators(s) == s
    decreases |s|
  {
    if s != [] {
      var t := s[1..];
      CollapseSingleDashes(t);
      assert s == [s[0]] + t;
      if s[0] == '-' {
        assert t == [] || !IsSeparator(t[0]);
        assert DropSeparators(t) == t;
        assert DropSeparators(s) == t;
        assert CollapseSeparators(s) == "-" + CollapseSeparators(DropSeparators(s));
      } else {
        assert !IsSeparator(s[0]);
        assert CollapseSeparators(s) == [s[0]] + CollapseSeparators(t);
      }
    }
  }

  /** Dropping the separators in front of `a + b` drops them from `a`, and from `b` too when `a` is all separators. */
  lemma {:induction false} DropSeparatorsAppend(a: string, b: string)
    ensures DropSeparators(a + b) == if DropSeparators(a) == [] then DropSeparators(b) else DropSeparators(a) + b
  {
    if a != [] {
      assert (a + b)[0] == a[0];
      if IsSeparator(a[0]) {
        assert (a + b)[1..] == a[1..] + b;
        DropSeparatorsAppend(a[1..], b);
      }
    } else {
      assert a + b == b;
    }
  }

  /** A nonempty run of separators collapses to a single dash. */
  lemma CollapseRunOfSeparators(s: string)
    requires s != [] && forall i :: 0 <= i < |s| ==> IsSeparator(s[i])
    ensures CollapseSeparators(s) == "-"
  {
  }

  /**
   * Collapsing works piece by piece: when no run of separators spans the boundary between `a` and
   * `b`, the collapse of `a + b` is the collapse of `a` followed by that of `b`. Together with
   * `CollapseRunOfSeparators` this fixes the result of every input, one maximal run at a time.
   */
  lemma {:induction false} CollapseJoin(a: string, b: string)
    requires a == [] || b == [] || !(IsSeparator(a[|a| - 1]) && IsSeparator(b[0]))
    ensures CollapseSeparators(a + b) == CollapseSeparators(a) + CollapseSeparators(b)
    decreases |a|
  {
    if a == [] {
      assert a + b == b;
    } else if b == [] {
      assert a + b == a;
    } else if IsSeparator(a[0]) {
      var d := DropSeparators(a);
      DropSeparatorsAppend(a, b);
      assert (a + b)[0] == a[0];
      assert CollapseSeparators(a + b) == "-" + CollapseSeparators(DropSeparators(a + b));
      assert CollapseSeparators(a) == "-" + CollapseSeparators(d);
      if d == [] {
        assert DropSeparators(b) == b;
      } else {
        assert d[0] == a[|a| - |d|];
        assert |d| < |a|;
        assert d[|d| - 1] == a[|a| - 1];
        CollapseJoin(d, b);
        ConcatAssoc("-", CollapseSeparators(d), CollapseSeparators(b));
      }
    } else {
      assert (a + b)[0] == a[0];
      assert (a + b)[1..] == a[1..] + b;
      assert CollapseSeparators(a + b) == [a[0]] + CollapseSeparators(a[1..] + b);
      CollapseJoin(a[1..], b);
      ConcatAssoc([a[0]], CollapseSeparators(a[1..]), CollapseSeparators(b));
    }
  }

  /** Text that is two slugs joined by white space, `_` or dashes slugifies to the two joined by one dash. */
  lemma SlugifyJoinsWords(a: string, sep: string, b: string)
    requires IsSlug(a) && IsSlug(b) && a != [] && b != []
    requires sep != [] && forall i :: 0 <= i < |sep| ==> IsSeparator(sep[i])
    ensures Slugify(a + sep + b) == a + "-" + b
  {
    var s := a + sep + b;
    JoinedPlain(a, sep, b);
    LowerOfLowercase(s);
    FilterAll(s, Kept);
    SlugEnds(a);
    SlugEnds(b);
    CollapseRunThen(sep, b);
    CollapseJoined(a, sep, b);
    var r := a + "-" + b;
    assert r[0] == a[0] && r[|r| - 1] == b[|b| - 1];
    TrimDashesKeeps(r);
  }

  lemma JoinedPlain(a: string, sep: string, b: string)
    requires forall i :: 0 <= i < |a| ==> IsSlugChar(a[i])
    requires forall i :: 0 <= i < |b| ==> IsSlugChar(b[i])
    requires forall i :: 0 <= i < |sep| ==> IsSeparator(sep[i])
    ensures forall i :: 0 <= i < |a + sep + b| ==> !IsUpper((a + sep + b)[i]) && Kept((a + sep + b)[i])
  {
    SlugCharsPlain(a);
    SlugCharsPlain(b);
    var s := a + sep + b;
    forall i | 0 <= i < |s|
      ensures !IsUpper(s[i]) && Kept(s[i])
    {
      if i < |a| {
        assert s[i] == a[i];
      } else if i < |a| + |sep| {
        assert s[i] == sep[i - |a|];
      } else {
        assert s[i] == b[i - |a| - |sep|];
      }
    }
  }

  lemma CollapseJoined(a: string, sep: string, b: string)
    requires a != [] && !IsSeparator(a[|a| - 1]) && CollapseSeparators(a) == a
    requires CollapseSeparators(sep + b) == "-" + b
    ensures CollapseSeparators(a + sep + b) == a + "-" + b
  {
    CollapseJoin(a, sep + b);
    ConcatAssoc(a, sep, b);
    ConcatAssoc(a, "-", b);
  }

  /** A slug starts and ends with a character that is not a separator, and collapsing keeps it. */
  lemma SlugEnds(a: string)
    requires IsSlug(a) && a != []
    ensures !IsSeparator(a[0]) && !IsSeparator(a[|a| - 1]) && CollapseSeparators(a) == a
  {
    SlugCharsPlain(a);
    CollapseSingleDashes(a);
  }

  lemma CollapseRunThen(sep: string, b: string)
    requires sep != [] && forall i :: 0 <= i < |sep| ==> IsSeparator(sep[i])
    requires b != [] && !IsSeparator(b[0]) && CollapseSeparators(b) == b
    ensures CollapseSeparators(sep + b) == "-" + b
  {
    CollapseJoin(sep, b);
    CollapseRunOfSeparators(sep);
  }

  /** `slugify` is idempotent. */
  lemma SlugifyIdempotent(s: string)
    ensures Slugify(Slugify(s)) == Slugify(s)
  {
    SlugifyIsSlug(s);
    SlugifyFixesSlugs(Slugify(s));
  }

  /** A text without ASCII letters or digits (punctuation, Chinese, spaces) has the empty slug. */
  lemma SlugifyWithoutAlnum(s: string)
    requires forall i :: 0 <= i < |s| ==> !IsAlnum(s[i])
    ensures Slugify(s) == []
  {
    var l := Lower(s);
    var k := RemoveDisallowed(l);
    var c := CollapseSeparators(k);
    forall i | 0 <= i < |k|
      ensures IsSeparator(k[i])
    {
      assert k[i] in l;
      var j :| 0 <= j < |l| && l[j] == k[i];
      assert !IsAlnum(s[j]);
    }
    if k != [] {
      assert DropSeparators(k) == [];
      assert c == "-";
      assert DropLeadingDashes(c) == [];
    }
  }

  predicate NotDash(c: char) {
    c != '-'
  }

  predicate NotSeparator(c: char) {
    !IsSeparator(c)
  }

  /**
   * Apart from its dashes, a slug is exactly the ASCII letters and digits of the text, lowercased and
   * in their original order: every other character is removed or turned into a dash.
   */
  lemma SlugifyKeepsAlnum(s: string)
    ensures Filter(Slugify(s), NotDash) == Filter(Lower(s), IsAlnum)
  {
    var l := Lower(s);
    var k := RemoveDisallowed(l);
    var c := CollapseSeparators(k);
    assert Filter(k, NotSeparator) == Filter(l, IsAlnum) by {
      FilterFilter(l, Kept, NotSeparator, IsAlnum);
    }
    CollapseKeepsOthers(k);
    TrimDashesKeepsOthers(c);
  }

  lemma {:induction false} DropSeparatorsKeepsOthers(s: string)
    ensures Filter(DropSeparators(s), NotSeparator) == Filter(s, NotSeparator)
  {
    if s != [] && IsSeparator(s[0]) {
      DropSeparatorsKeepsOthers(s[1..]);
    }
  }

  /** Collapsing only replaces separators: the other characters stay, in order. */
  lemma {:induction false} CollapseKeepsOthers(s: string)
    ensures Filter(CollapseSeparators(s), NotDash) == Filter(s, NotSeparator)
    decreases |s|
  {
    if s != [] {
      if IsSeparator(s[0]) {
        var rest := DropSeparators(s);
        CollapseKeepsOthers(rest);
        DropSeparatorsKeepsOthers(s);
        assert CollapseSeparators(s) == "-" + CollapseSeparators(rest);
        assert ("-" + CollapseSeparators(rest))[1..] == CollapseSeparators(rest);
      } else {
        CollapseKeepsOthers(s[1..]);
        assert CollapseSeparators(s) == [s[0]] + CollapseSeparators(s[1..]);
        assert ([s[0]] + CollapseSeparators(s[1..]))[1..] == CollapseSeparators(s[1..]);
      }
    }
  }

  /** Trimming dashes removes only dashes. */
  lemma TrimDashesKeepsOthers(s: string)
    ensures Filter(TrimDashes(s), NotDash) == Filter(s, NotDash)
  {
    DropLeadingKeepsOthers(s);
    DropTrailingKeepsOthers(DropLeadingDashes(s));
  }

  lemma {:induction false} DropLeadingKeepsOthers(s: string)
    ensures Filter(DropLeadingDashes(s), NotDash) == Filter(s, NotDash)
  {
    if s != [] && s[0] == '-' {
      DropLeadingKeepsOthers(s[1..]);
    }
  }

  lemma {:induction false} DropTrailingKeepsOthers(s: string)
    ensures Filter(DropTrailingDashes(s), NotDash) == Filter(s, NotDash)
  {
    if s != [] && s[|s| - 1] == '-' {
      var pre := s[..|s| - 1];
      DropTrailingKeepsOthers(pre);
      assert s == pre + ['-'];
      FilterAppend(pre, ['-'], NotDash);
      assert Filter(['-'], NotDash) == [];
    }
  }
}
