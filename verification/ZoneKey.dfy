/**
 The internal key of a hazard zone: a slug of its label, made free by a number
 (backend/src/risk-zones/risk-zone.service.ts).
 */
module ZoneKey {
  import opened FiniteSets
  import opened Text

  const MAX_SLUG_LENGTH: nat := 60

  predicate IsKeyChar(c: char) {
    'a' <= c <= 'z' || '0' <= c <= '9'
  }

  predicate IsSlugChar(c: char) {
    IsKeyChar(c) || c == '-'
  }

  ghost predicate SlugText(s: string) {
    forall i :: 0 <= i < |s| ==> IsSlugChar(s[i])
  }

  // ---------------------------------------------------------------------
  // slugify
  // ---------------------------------------------------------------------

  /** `replace(/[^a-z0-9]+/g, '-')`: each run of other characters becomes one
      hyphen. */
  function Collapse(s: string): (r: string)
    ensures SlugText(r)
    ensures forall i :: 0 <= i < |r| - 1 ==> !(r[i] == '-' && r[i + 1] == '-')
    ensures r != [] && s != [] && r[|r| - 1] == '-' ==> !IsKeyChar(s[|s| - 1])
    ensures s != [] && !IsKeyChar(s[|s| - 1]) ==> r != [] && r[|r| - 1] == '-'
    ensures s == [] ==> r == []
  {
    if s == [] then []
    else
      var n := |s| - 1;
      var before := Collapse(s[..n]);
      if IsKeyChar(s[n]) then before + [s[n]]
      else if before != [] && before[|before| - 1] == '-' then before
      else before + ['-']
  }

  /** `replace(/^-+|-+$/g, '')`. */
  function TrimLeft(s: string): (r: string)
    ensures r != [] ==> r[0] != '-'
    ensures exists k :: 0 <= k <= |s| && r == s[k..]
  {
    if s != [] && s[0] == '-' then
      var r := TrimLeft(s[1..]);
      assert exists k :: 0 <= k <= |s| && r == s[k..] by {
        var k :| 0 <= k <= |s[1..]| && r == s[1..][k..];
        assert s[1..][k..] == s[k + 1..];
      }
      r
    else
      assert s == s[0..];
      s
  }

  function TrimRight(s: string): (r: string)
    ensures r != [] ==> r[|r| - 1] != '-'
    ensures exists k :: 0 <= k <= |s| && r == s[..k]
  {
    if s != [] && s[|s| - 1] == '-' then
      var r := TrimRight(s[..|s| - 1]);
      assert exists k :: 0 <= k <= |s| && r == s[..k] by {
        var k :| 0 <= k <= |s[..|s| - 1]| && r == s[..|s| - 1][..k];
        assert s[..|s| - 1][..k] == s[..k];
      }
      r
    else
      assert s == s[..|s|];
      s
  }

  /** The chain after lower-casing, transliteration and normalisation, which
      together are any map of characters: `folded` is their result. */
  function Slugify(folded: string): string {
    var trimmed := TrimRight(TrimLeft(Collapse(folded)));
    var slug := if |trimmed| > MAX_SLUG_LENGTH then trimmed[..MAX_SLUG_LENGTH] else trimmed;
    if slug == [] then "zone" else slug
  }

  ghost predicate NoDoubleHyphen(s: string) {
    forall i :: 0 <= i < |s| - 1 ==> !(s[i] == '-' && s[i + 1] == '-')
  }

  lemma PartOfSlug(s: string, i: nat, j: nat)
    requires i <= j <= |s| && SlugText(s) && NoDoubleHyphen(s)
    ensures SlugText(s[i..j]) && NoDoubleHyphen(s[i..j])
  {
    assert forall k :: 0 <= k < j - i ==> s[i..j][k] == s[i + k];
  }

  lemma TrimmedIsSlug(s: string)
    requires SlugText(s) && NoDoubleHyphen(s)
    ensures var t := TrimRight(TrimLeft(s));
            SlugText(t) && NoDoubleHyphen(t) && (t != [] ==> t[0] != '-' && t[|t| - 1] != '-')
  {
    hide TrimLeft, TrimRight;
    var left := TrimLeft(s);
    var k :| 0 <= k <= |s| && left == s[k..];
    PartOfSlug(s, k, |s|);
    assert left == s[k..|s|];
    var trimmed := TrimRight(left);
    var j :| 0 <= j <= |left| && trimmed == left[..j];
    PartOfSlug(left, 0, j);
    assert trimmed == left[0..j];
  }

  /** Every key is made of a-z, 0-9 and single hyphens, starts with no hyphen,
      and has one to sixty characters. It may still end in one when the cut at
      sixty falls behind a hyphen, and only then. */
  lemma SlugIsWellFormed(folded: string)
    ensures var slug := Slugify(folded);
            && SlugText(slug)
            && NoDoubleHyphen(slug)
            && 1 <= |slug| <= 60
            && slug[0] != '-'
            && (slug[|slug| - 1] == '-' ==> |slug| == 60)
  {
    hide Collapse, TrimLeft, TrimRight;
    TrimmedIsSlug(Collapse(folded));
    var trimmed := TrimRight(TrimLeft(Collapse(folded)));
    if |trimmed| > MAX_SLUG_LENGTH {
      PartOfSlug(trimmed, 0, MAX_SLUG_LENGTH);
      assert trimmed[..MAX_SLUG_LENGTH] == trimmed[0..MAX_SLUG_LENGTH];
    }
    assert "zone" == ['z', 'o', 'n', 'e'];
  }

  // ---------------------------------------------------------------------
  // What the slug keeps of the label
  // ---------------------------------------------------------------------

  /** The letters and digits of a text, in order. */
  function KeyChars(s: string): string {
    if s == [] then []
    else
      var n := |s| - 1;
      KeyChars(s[..n]) + if 'a' <= s[n] <= 'z' || '0' <= s[n] <= '9' then [s[n]] else []
  }

  lemma {:induction false} KeyCharsConcat(a: string, b: string)
    ensures KeyChars(a + b) == KeyChars(a) + KeyChars(b)
    decreases |b|
  {
    if b == [] {
      assert a + b == a;
    } else {
      assert (a + b)[..|a + b| - 1] == a + b[..|b| - 1];
      KeyCharsConcat(a, b[..|b| - 1]);
    }
  }

  lemma {:induction false} CollapseKeepsKeyChars(s: string)
    ensures KeyChars(Collapse(s)) == KeyChars(s)
    decreases |s|
  {
    if s != [] {
      var n := |s| - 1;
      var before := Collapse(s[..n]);
      CollapseKeepsKeyChars(s[..n]);
      if IsKeyChar(s[n]) {
        KeyCharsConcat(before, [s[n]]);
        assert [s[n]][..0] == [];
      } else {
        KeyCharsConcat(before, ['-']);
        assert ['-'][..0] == [];
      }
    }
  }

  lemma FirstHyphenIsNone(s: string)
    requires s != [] && s[0] == '-'
    ensures KeyChars(s) == KeyChars(s[1..])
  {
    assert s == [s[0]] + s[1..];
    KeyCharsConcat([s[0]], s[1..]);
    assert [s[0]][..0] == [];
  }

  lemma {:induction false} TrimLeftKeepsKeyChars(s: string)
    ensures KeyChars(TrimLeft(s)) == KeyChars(s)
    decreases |s|
  {
    hide KeyChars;
    if s != [] && s[0] == '-' {
      TrimLeftKeepsKeyChars(s[1..]);
      FirstHyphenIsNone(s);
    }
  }

  lemma {:induction false} TrimRightKeepsKeyChars(s: string)
    ensures KeyChars(TrimRight(s)) == KeyChars(s)
    decreases |s|
  {
    if s != [] && s[|s| - 1] == '-' {
      TrimRightKeepsKeyChars(s[..|s| - 1]);
    }
  }

  lemma {:induction false} SomeKeyChar(s: string, i: nat)
    requires i < |s| && IsKeyChar(s[i])
    ensures KeyChars(s) != []
    decreases |s|
  {
    if i < |s| - 1 {
      SomeKeyChar(s[..|s| - 1], i);
    }
  }

  /** The letters and digits of the slug are those of the label, in order and all
      of them unless the slug was cut at sixty characters; a label without any
      becomes the word zone. */
  lemma SlugKeepsTheLabel(folded: string)
    ensures KeyChars(folded) == [] ==> Slugify(folded) == "zone"
    ensures KeyChars(folded) != [] ==> KeyChars(Slugify(folded)) <= KeyChars(folded)
    ensures KeyChars(folded) != [] && |Slugify(folded)| < 60 ==> KeyChars(Slugify(folded)) == KeyChars(folded)
  {
    hide Collapse, TrimLeft, TrimRight;
    var collapsed := Collapse(folded);
    TrimmedIsSlug(collapsed);
    var trimmed := TrimRight(TrimLeft(collapsed));
    CollapseKeepsKeyChars(folded);
    TrimLeftKeepsKeyChars(collapsed);
    TrimRightKeepsKeyChars(TrimLeft(collapsed));
    if trimmed != [] {
      SomeKeyChar(trimmed, 0);
    }
    if |trimmed| > MAX_SLUG_LENGTH {
      assert trimmed == trimmed[..MAX_SLUG_LENGTH] + trimmed[MAX_SLUG_LENGTH..];
      KeyCharsConcat(trimmed[..MAX_SLUG_LENGTH], trimmed[MAX_SLUG_LENGTH..]);
    }
  }

  // ---------------------------------------------------------------------
  // LIKE
  // ---------------------------------------------------------------------

  /** PostgreSQL's LIKE with its default escape: `%` any text, `_` any one
      character, a backslash takes the next character literally. */
  predicate Like(pattern: string, s: string)
    decreases |pattern| + |s|
  {
    if pattern == [] then s == []
    else if pattern[0] == '%' then Like(pattern[1..], s) || (s != [] && Like(pattern, s[1..]))
    else if pattern[0] == '\\' && |pattern| > 1 then s != [] && s[0] == pattern[1] && Like(pattern[2..], s[1..])
    else if pattern[0] == '_' then s != [] && Like(pattern[1..], s[1..])
    else s != [] && s[0] == pattern[0] && Like(pattern[1..], s[1..])
  }

  lemma {:induction false} AnythingMatches(s: string)
    ensures Like("%", s)
    decreases |s|
  {
    assert "%"[1..] == [];
    if s != [] {
      AnythingMatches(s[1..]);
    }
  }

  /** For a slug the pattern is a literal prefix: no character of it is special. */
  lemma {:induction false} SlugPatternIsAPrefix(base: string, s: string)
    requires SlugText(base)
    ensures Like(base + "%", s) <==> base <= s
    decreases |base|
  {
    var pattern := base + "%";
    if base == [] {
      assert pattern == "%";
      AnythingMatches(s);
    } else {
      assert IsSlugChar(base[0]) && pattern[0] == base[0];
      assert pattern[1..] == base[1..] + "%";
      if s != [] && s[0] == base[0] {
        SlugPatternIsAPrefix(base[1..], s[1..]);
        assert base <= s <==> base[1..] <= s[1..] by {
          if base[1..] <= s[1..] {
            assert base == [base[0]] + base[1..] && s == [s[0]] + s[1..];
          }
        }
      }
    }
  }

  // ---------------------------------------------------------------------
  // reserveKey
  // ---------------------------------------------------------------------

  /** SELECT name ... WHERE name = base OR name LIKE base || '-%'. */
  function TakenNames(names: set<string>, base: string): set<string> {
    set name | name in names && (name == base || Like(base + "-%", name))
  }

  function Candidate(base: string, n: nat): string {
    base + "-" + Decimal(n)
  }

  lemma CandidatesDiffer(base: string, m: nat, n: nat)
    requires Candidate(base, m) == Candidate(base, n)
    ensures m == n
  {
    assert Candidate(base, m)[|base| + 1..] == Decimal(m);
    assert Candidate(base, n)[|base| + 1..] == Decimal(n);
    DecimalIsInjective(m, n);
  }

  lemma CandidateIsSelected(names: set<string>, base: string, n: nat)
    requires SlugText(base)
    ensures Candidate(base, n) in TakenNames(names, base) <==> Candidate(base, n) in names
  {
    assert base + "-%" == (base + "-") + "%";
    SlugPatternIsAPrefix(base + "-", Candidate(base, n));
    assert base + "-" <= Candidate(base, n);
  }

  lemma NothingResembles(names: set<string>, base: string)
    requires SlugText(base)
    ensures TakenNames(names, base) == {} <==>
            forall name :: name in names ==> name != base && !(base + "-" <= name)
  {
    forall name | name in names ensures Like(base + "-%", name) <==> base + "-" <= name {
      assert base + "-%" == (base + "-") + "%";
      SlugPatternIsAPrefix(base + "-", name);
    }
    forall name | name in names && (name == base || base + "-" <= name) ensures TakenNames(names, base) != {} {
      assert name in TakenNames(names, base);
    }
  }

  function Probed(base: string, n: nat): set<string> {
    set k | 2 <= k < n :: Candidate(base, k)
  }

  lemma {:induction false} ProbedCount(base: string, n: nat)
    requires n >= 2
    ensures |Probed(base, n)| == n - 2
    decreases n
  {
    if n == 2 {
      assert Probed(base, n) == {};
    } else {
      assert Probed(base, n) == Probed(base, n - 1) + {Candidate(base, n - 1)};
      if Candidate(base, n - 1) in Probed(base, n - 1) {
        var k :| 2 <= k < n - 1 && Candidate(base, k) == Candidate(base, n - 1);
        CandidatesDiffer(base, k, n - 1);
        assert false;
      }
      ProbedCount(base, n - 1);
    }
  }

  /** The search ends, within one probe more than there are taken names, with a
      name no row holds: the base itself when nothing resembles it, and
      otherwise the first free number from two. */
  method ReserveKey(names: set<string>, base: string) returns (key: string, ghost probes: nat)
    requires SlugText(base)
    ensures key !in names
    ensures probes <= |TakenNames(names, base)| + 1
    ensures probes == 0 <==> forall name :: name in names ==> name != base && !(base + "-" <= name)
    ensures probes == 0 ==> key == base
    ensures probes > 0 ==> key == base + "-" + Decimal(probes + 1)
                           && forall k :: 2 <= k <= probes ==> base + "-" + Decimal(k) in names
  {
    var taken := TakenNames(names, base);
    assert base in names ==> base in taken;
    NothingResembles(names, base);
    if taken == {} {
      return base, 0;
    }
    var n := 2;
    while Candidate(base, n) in taken
      invariant n >= 2 && Probed(base, n) <= taken
      invariant n - 2 <= |taken|
      decreases |taken| + 2 - n
    {
      assert Probed(base, n + 1) == Probed(base, n) + {Candidate(base, n)};
      ProbedCount(base, n + 1);
      SubsetSize(Probed(base, n + 1), taken);
      n := n + 1;
    }
    CandidateIsSelected(names, base, n);
    forall k | 2 <= k < n ensures base + "-" + Decimal(k) in names {
      assert Candidate(base, k) in Probed(base, n);
    }
    return Candidate(base, n), n - 1;
  }
}
