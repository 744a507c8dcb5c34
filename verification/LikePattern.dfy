/** SQL's LIKE, as PostgreSQL evaluates it, and what the where-language's text
    operators therefore mean. The compiler pastes the caller's text into the pattern
    without escaping it. */
module LikePattern {
  import opened Text

  const ANY := "%"

  /** `%` matches any run, `_` any one character, and a backslash makes the next
      character literal. A pattern that ends in a lone backslash is rejected by the
      database, so no row matches it. */
  predicate Like(t: string, p: string)
    decreases |p|, |t|
  {
    if p == "" then t == ""
    else if p[0] == '%' then Like(t, p[1..]) || (t != "" && Like(t[1..], p))
    else if p[0] == '\\' then
      |p| > 1 && t != "" && t[0] == p[1] && Like(t[1..], p[2..])
    else t != "" && (p[0] == '_' || t[0] == p[0]) && Like(t[1..], p[1..])
  }

  /** Text that contains no character LIKE treats specially. */
  predicate Plain(v: string) {
    forall c | c in v :: c != '%' && c != '_' && c != '\\'
  }

  lemma {:induction false} LikeAnyTail(t: string)
    ensures Like(t, ANY)
    decreases |t|
  {
    assert ANY[1..] == "";
    if t == "" {
    } else {
      LikeAnyTail(t[1..]);
    }
  }

  lemma {:induction false} LikePlainPrefix(t: string, v: string, rest: string)
    requires Plain(v)
    ensures Like(t, v + rest) <==> v <= t && Like(t[|v|..], rest)
    decreases |v|
  {
    if v == "" {
      assert v + rest == rest && t[0..] == t;
    } else {
      assert v[0] in v && forall c | c in v[1..] :: c in v;
      assert (v + rest)[1..] == v[1..] + rest;
      if t != "" && t[0] == v[0] {
        LikePlainPrefix(t[1..], v[1..], rest);
        assert v == [v[0]] + v[1..] && t == [t[0]] + t[1..];
        if v[1..] <= t[1..] {
          assert t[1..][|v| - 1..] == t[|v|..];
          assert v <= t;
        }
      }
    }
  }

  /** A leading `%` skips some prefix of the text. */
  lemma {:induction false} LikeAnyHead(t: string, p: string)
    ensures Like(t, ANY + p) <==> exists k: nat :: k <= |t| && Like(t[k..], p)
    decreases |t|
  {
    assert (ANY + p)[1..] == p;
    assert t[0..] == t;
    if t == "" {
    } else {
      LikeAnyHead(t[1..], p);
      if exists k: nat :: k <= |t| && Like(t[k..], p) {
        var k: nat :| k <= |t| && Like(t[k..], p);
        if k > 0 {
          assert t[1..][k - 1..] == t[k..];
        }
      }
      if exists k: nat :: k <= |t[1..]| && Like(t[1..][k..], p) {
        var k: nat :| k <= |t[1..]| && Like(t[1..][k..], p);
        assert t[1..][k..] == t[k + 1..];
      }
    }
  }

  /** What each kind of pattern character asks of the text. */
  lemma LikeReads(t: string, c: char, p: string)
    ensures Like(t, "") <==> t == ""
    ensures Like(t, "%" + p) <==> exists k: nat :: k <= |t| && Like(t[k..], p)
    ensures Like(t, "_" + p) <==> t != "" && Like(t[1..], p)
    ensures Like(t, "\\" + [c] + p) <==> t != "" && t[0] == c && Like(t[1..], p)
    ensures !Like(t, "\\")
    ensures c != '%' && c != '_' && c != '\\' ==>
              (Like(t, [c] + p) <==> t != "" && t[0] == c && Like(t[1..], p))
  {
    LikeAnyHead(t, p);
    assert ("_" + p)[1..] == p && ([c] + p)[1..] == p;
    var escaped := "\\" + [c] + p;
    assert escaped[0] == '\\' && escaped[1] == c && escaped[2..] == p;
  }

  predicate IsSuffix(v: string, t: string) {
    |v| <= |t| && t[|t| - |v|..] == v
  }

  // A text the pattern accepts: escapes undone, `%` dropped, `_` filled with an `x`.
  function Sample(p: string): string
    decreases |p|
  {
    if p == "" then ""
    else if p[0] == '%' then Sample(p[1..])
    else if p[0] == '\\' then if |p| > 1 then [p[1]] + Sample(p[2..]) else ""
    else [if p[0] == '_' then 'x' else p[0]] + Sample(p[1..])
  }

  // The pattern ends in an escape with nothing after it.
  predicate Dangling(p: string)
    decreases |p|
  {
    p != "" && if p[0] == '\\' then |p| == 1 || Dangling(p[2..]) else Dangling(p[1..])
  }

  lemma {:induction false} SampleMatches(p: string)
    requires !Dangling(p)
    ensures Like(Sample(p), p)
    decreases |p|
  {
    if p == "" {
    } else {
      if p[0] == '\\' {
        SampleMatches(p[2..]);
        assert Sample(p)[1..] == Sample(p[2..]);
      } else {
        SampleMatches(p[1..]);
        if p[0] != '%' {
          assert Sample(p)[1..] == Sample(p[1..]);
        }
      }
    }
  }

  lemma {:induction false} DanglingNeverMatches(t: string, p: string)
    requires Dangling(p)
    ensures !Like(t, p)
    decreases |p|, |t|
  {
    if p[0] == '%' {
      DanglingNeverMatches(t, p[1..]);
      if t != "" {
        DanglingNeverMatches(t[1..], p);
      }
    } else if t != "" {
      if p[0] != '\\' {
        DanglingNeverMatches(t[1..], p[1..]);
      } else if |p| > 1 {
        DanglingNeverMatches(t[1..], p[2..]);
      }
    }
  }

  lemma {:induction false} AnyTailNeverDangles(v: string)
    ensures !Dangling(v + ANY)
    decreases |v|
  {
    if |v| > 1 {
      assert (v + ANY)[1..] == v[1..] + ANY && (v + ANY)[2..] == v[2..] + ANY;
      AnyTailNeverDangles(v[1..]);
      AnyTailNeverDangles(v[2..]);
    } else if |v| == 1 {
      assert (v + ANY)[1..] == ANY && (v + ANY)[2..] == "";
    }
  }

  // The sample is shorter than the caller's text unless that text is plain; at equal
  // length it differs from it. `end` is what the compiler appends: `%` or nothing.
  lemma {:induction false} SampleDiffers(v: string, end: string)
    requires end == ANY || end == ""
    ensures |Sample(v + end)| <= |v|
    ensures Sample(v + end) == v ==> Plain(v) || Dangling(v + end)
    decreases |v|
  {
    var p := v + end;
    if v == "" {
      assert p == end;
      assert end != "" ==> end[1..] == "";
    } else if v[0] == '\\' {
      if |v| > 1 {
        assert p[2..] == v[2..] + end;
        SampleDiffers(v[2..], end);
      } else if end == ANY {
        assert p[2..] == "";
        assert Sample(p) == "%";
      }
    } else {
      assert p[1..] == v[1..] + end;
      SampleDiffers(v[1..], end);
      if Sample(p) == v {
        assert v[0] != '%' && v[0] != '_';
        assert Sample(p)[1..] == Sample(p[1..]);
        if Plain(v[1..]) {
          forall c | c in v
            ensures c != '%' && c != '_' && c != '\\'
          {
            if c != v[0] {
              assert c in v[1..];
            }
          }
        }
      }
    }
  }

  // For text that is not plain, a text on which the unescaped pattern misleads.
  function Misread(v: string, tail: bool): string {
    if tail then Sample(v + ANY) else if Dangling(v) then v else Sample(v)
  }

  lemma MisreadContains(v: string)
    requires !Plain(v)
    ensures var t := Misread(v, true); Like(t, ANY + v + ANY) && !Occurs(v, t)
  {
    var t := Sample(v + ANY);
    AnyTailNeverDangles(v);
    SampleMatches(v + ANY);
    SampleDiffers(v, ANY);
    assert ANY + v + ANY == ANY + (v + ANY);
    LikeAnyHead(t, v + ANY);
    assert t[0..] == t;
    NoRoomToOccur(v, t);
  }

  lemma MisreadStartsWith(v: string)
    requires !Plain(v)
    ensures var t := Misread(v, true); Like(t, v + ANY) && !(v <= t)
  {
    AnyTailNeverDangles(v);
    SampleMatches(v + ANY);
    SampleDiffers(v, ANY);
  }

  lemma MisreadEndsWith(v: string)
    requires !Plain(v)
    ensures var t := Misread(v, false); Like(t, ANY + v) != IsSuffix(v, t)
  {
    var t := Misread(v, false);
    LikeAnyHead(t, v);
    if Dangling(v) {
      forall k: nat | k <= |v|
        ensures !Like(v[k..], v)
      {
        DanglingNeverMatches(v[k..], v);
      }
    } else {
      SampleMatches(v);
      assert v + "" == v;
      SampleDiffers(v, "");
      assert t[0..] == t;
    }
  }

  /** `contains` means "is a substring" exactly for text free of LIKE's specials. */
  lemma ContainsMeansSubstring(v: string)
    ensures (forall t :: Like(t, ANY + v + ANY) <==> Occurs(v, t)) <==> Plain(v)
  {
    if Plain(v) {
      forall t
        ensures Like(t, ANY + v + ANY) <==> Occurs(v, t)
      {
        PlainContains(t, v);
      }
    } else {
      MisreadContains(v);
      assert !(Like(Misread(v, true), ANY + v + ANY) <==> Occurs(v, Misread(v, true)));
    }
  }

  lemma NoRoomToOccur(v: string, t: string)
    requires |t| <= |v|
    ensures Occurs(v, t) ==> t == v
  {
    if k: nat :| OccursAt(v, t, k) {
      assert t[k..k + |v|] == t;
    }
  }

  lemma PlainContains(t: string, v: string)
    requires Plain(v)
    ensures Like(t, ANY + v + ANY) <==> Occurs(v, t)
  {
    assert ANY + v + ANY == ANY + (v + ANY);
    LikeAnyHead(t, v + ANY);
    forall k: nat | k <= |t|
      ensures Like(t[k..], v + ANY) <==> OccursAt(v, t, k)
    {
      PlainStartsWith(t[k..], v);
      if k + |v| <= |t| {
        assert t[k..][..|v|] == t[k..k + |v|];
      }
    }
  }

  lemma PlainStartsWith(t: string, v: string)
    requires Plain(v)
    ensures Like(t, v + ANY) <==> v <= t
  {
    LikePlainPrefix(t, v, ANY);
    if v <= t {
      LikeAnyTail(t[|v|..]);
    }
  }

  /** `startswith` means "is a prefix" exactly for the same text. */
  lemma StartsWithMeansPrefix(v: string)
    ensures (forall t :: Like(t, v + ANY) <==> v <= t) <==> Plain(v)
  {
    if Plain(v) {
      forall t
        ensures Like(t, v + ANY) <==> v <= t
      {
        PlainStartsWith(t, v);
      }
    } else {
      MisreadStartsWith(v);
      var t := Misread(v, true);
      assert !(v <= t);
      assert !(Like(t, v + ANY) <==> v <= t);
    }
  }

  /** `endswith` means "is a suffix" exactly for the same text. */
  lemma EndsWithMeansSuffix(v: string)
    ensures (forall t :: Like(t, ANY + v) <==> IsSuffix(v, t)) <==> Plain(v)
  {
    assert v + "" == v;
    if Plain(v) {
      forall t
        ensures Like(t, ANY + v) <==> IsSuffix(v, t)
      {
        PlainEndsWith(t, v);
      }
    } else {
      MisreadEndsWith(v);
      assert !(Like(Misread(v, false), ANY + v) <==> IsSuffix(v, Misread(v, false)));
    }
  }

  lemma PlainEndsWith(t: string, v: string)
    requires Plain(v)
    ensures Like(t, ANY + v) <==> IsSuffix(v, t)
  {
    LikeAnyHead(t, v);
    assert v + "" == v;
    forall k: nat | k <= |t|
      ensures Like(t[k..], v) <==> t[k..] == v
    {
      LikePlainPrefix(t[k..], v, "");
    }
  }
}
