/** Strings as the source handles them: case folding, order, splitting, decimal numbers. */
module Text {
  import opened Wrappers

  function LowerChar(c: char): char {
    if 'A' <= c <= 'Z' then c - 'A' + 'a' else c
  }

  function Lower(s: string): string {
    seq(|s|, i requires 0 <= i < |s| => LowerChar(s[i]))
  }

  function Upper(s: string): string {
    seq(|s|, i requires 0 <= i < |s| => if 'a' <= s[i] <= 'z' then s[i] - 'a' + 'A' else s[i])
  }

  /** Order by code point, a proper prefix first. */
  predicate Before(a: string, b: string)
    decreases |a|
  {
    b != "" && (a == "" || a[0] < b[0] || (a[0] == b[0] && Before(a[1..], b[1..])))
  }

  /** Only ASCII letters change case, each to the letter 32 places away. */
  lemma CaseChangesLetters(s: string, i: nat)
    requires i < |s|
    ensures |Lower(s)| == |Upper(s)| == |s|
    ensures Lower(s)[i] as int == s[i] as int + (if 65 <= s[i] as int <= 90 then 32 else 0)
    ensures Upper(s)[i] as int == s[i] as int - (if 97 <= s[i] as int <= 122 then 32 else 0)
  {
  }

  /** `b` comes after `a` when they part at some place, where `a` has ended or has the lower
      code point. */
  predicate PartsBelow(a: string, b: string, k: nat) {
    k < |b| && k <= |a| && a[..k] == b[..k] && (k == |a| || a[k] < b[k])
  }

  lemma {:induction false} BeforeAtFirstDifference(a: string, b: string)
    ensures Before(a, b) <==> exists k: nat :: PartsBelow(a, b, k)
    decreases |a|
  {
    if b == "" || a == "" || a[0] != b[0] {
      if Before(a, b) {
        assert PartsBelow(a, b, 0);
      }
      forall k: nat | 0 < k <= |a| && k <= |b|
        ensures a[..k][0] == a[0] && b[..k][0] == b[0]
      {
      }
    } else {
      BeforeAtFirstDifference(a[1..], b[1..]);
      forall k: nat
        ensures PartsBelow(a[1..], b[1..], k) <==> PartsBelow(a, b, k + 1)
      {
        if k < |b| - 1 && k <= |a| - 1 {
          assert a[..k + 1] == [a[0]] + a[1..][..k] && b[..k + 1] == [b[0]] + b[1..][..k];
        }
      }
      assert !PartsBelow(a, b, 0);
      if k: nat :| PartsBelow(a, b, k) {
        assert PartsBelow(a[1..], b[1..], k - 1);
      }
    }
  }

  lemma {:induction false} BeforeIsTotal(a: string, b: string)
    ensures !Before(b, a) <==> Before(a, b) || a == b
    decreases |a|
  {
    if a == "" || b == "" || a[0] != b[0] {
    } else {
      BeforeIsTotal(a[1..], b[1..]);
      assert a == [a[0]] + a[1..] && b == [b[0]] + b[1..];
    }
  }

  // ---------- substrings ----------

  predicate OccursAt(v: string, t: string, k: nat) {
    k + |v| <= |t| && t[k..k + |v|] == v
  }

  predicate Occurs(v: string, t: string) {
    exists k: nat | k <= |t| :: OccursAt(v, t, k)
  }

  // ---------- str.split ----------

  function Split(s: string, c: char): (r: seq<string>)
    ensures r != []
  {
    if s == "" then [""]
    else
      var rest := Split(s[1..], c);
      if s[0] == c then [""] + rest else [[s[0]] + rest[0]] + rest[1..]
  }

  lemma {:induction false} SplitAtFirst(a: string, c: char, b: string)
    requires c !in a
    ensures Split(a + [c] + b, c) == [a] + Split(b, c)
  {
    var s := a + [c] + b;
    if a == "" {
      assert s[1..] == b;
    } else {
      assert s[1..] == a[1..] + [c] + b;
      SplitAtFirst(a[1..], c, b);
      assert a == [a[0]] + a[1..];
    }
  }

  lemma {:induction false} SplitWithout(a: string, c: char)
    requires c !in a
    ensures Split(a, c) == [a]
  {
    if a == "" {
    } else {
      SplitWithout(a[1..], c);
      assert a == [a[0]] + a[1..];
    }
  }

  /** A text splits in two exactly when it holds the separator once. */
  lemma SplitInTwo(s: string, c: char)
    ensures |Split(s, c)| == 2 <==> exists a, b :: c !in a && c !in b && s == a + [c] + b
    ensures |Split(s, c)| == 2 ==>
              c !in Split(s, c)[0] && c !in Split(s, c)[1] && s == Split(s, c)[0] + [c] + Split(s, c)[1]
  {
    PiecesGlue(s, c);
    var r := Split(s, c);
    if |r| == 2 {
      assert r[1..] == [r[1]] && r[0] in r && r[1] in r;
      assert Glue([r[1]], c) == r[1];
    }
    if a, b :| c !in a && c !in b && s == a + [c] + b {
      SplitAtFirst(a, c, b);
      SplitWithout(b, c);
    }
  }

  function Glue(pieces: seq<string>, c: char): string
    requires pieces != []
  {
    if |pieces| == 1 then pieces[0] else pieces[0] + [c] + Glue(pieces[1..], c)
  }

  /** The pieces hold no separator, and glued with it they give the text back. */
  lemma {:induction false} PiecesGlue(s: string, c: char)
    ensures forall p | p in Split(s, c) :: c !in p
    ensures Glue(Split(s, c), c) == s
  {
    if s == "" {
    } else {
      PiecesGlue(s[1..], c);
      var rest := Split(s[1..], c);
      assert s == [s[0]] + s[1..];
      if s[0] == c {
        assert ([""] + rest)[1..] == rest;
      } else {
        var r := [[s[0]] + rest[0]] + rest[1..];
        assert r[1..] == rest[1..] && rest[0] in rest;
        assert forall p | p in r :: p == [s[0]] + rest[0] || p in rest;
      }
    }
  }

  // ---------- str(int) and int(str) ----------

  function Digits(n: nat): (s: string)
    ensures s != ""
    ensures forall c | c in s :: '0' <= c <= '9'
  {
    (if n < 10 then "" else Digits(n / 10)) + ['0' + (n % 10) as char]
  }

  function Decimal(n: int): string {
    if n < 0 then "-" + Digits(-n) else Digits(n)
  }

  function ParseDigits(s: string): Option<nat> {
    if s == "" then None
    else
      var c := s[|s| - 1];
      if !('0' <= c <= '9') then None
      else
        var d := (c - '0') as int;
        if |s| == 1 then Some(d)
        else match ParseDigits(s[..|s| - 1])
          case None => None
          case Some(n) => Some(10 * n + d)
  }

  function Negated(n: int): Option<int> {
    Some(-n)
  }

  /** Python's `int`, on texts without blanks, underscores or a plus sign. */
  function ParseInt(s: string): Option<int> {
    if s != "" && s[0] == '-' then
      var magnitude := ParseDigits(s[1..]);
      if magnitude.None? then None else Negated(magnitude.value)
    else ParseDigits(s)
  }

  lemma {:induction false} ParseRenderedDigits(n: nat)
    ensures ParseDigits(Digits(n)) == Some(n)
  {
    var s := Digits(n);
    if n < 10 {
    } else {
      ParseRenderedDigits(n / 10);
      assert s[..|s| - 1] == Digits(n / 10);
    }
  }

  lemma ParseRendered(n: int)
    ensures ParseInt(Decimal(n)) == Some(n)
  {
    if n < 0 {
      ParseRenderedDigits(-n);
      assert Decimal(n)[1..] == Digits(-n);
    } else {
      ParseRenderedDigits(n);
      assert Digits(n)[0] in Digits(n);
    }
  }

  /** Decimal notation: one digit below ten, the tens' notation in front of the last digit, and
      a minus sign in front of a negative number's magnitude. */
  lemma DecimalNotation(n: int)
    requires n >= 0
    ensures n < 10 ==> Decimal(n) == ["0123456789"[n]]
    ensures n >= 10 ==> Decimal(n) == Decimal(n / 10) + Decimal(n % 10)
    ensures n > 0 ==> Decimal(-n) == "-" + Decimal(n)
  {
  }

  predicate AllDigits(s: string) {
    forall i | 0 <= i < |s| :: '0' <= s[i] <= '9'
  }

  lemma {:induction false} ParseDigitsReads(s: string)
    ensures ParseDigits(s).Some? <==> s != "" && AllDigits(s)
  {
    if s == "" {
    } else {
      var init := s[..|s| - 1];
      ParseDigitsReads(init);
      assert forall i | 0 <= i < |init| :: init[i] == s[i];
    }
  }

  lemma {:induction false} LeadingZero(s: string)
    requires s != ""
    ensures ParseDigits("0" + s) == ParseDigits(s)
  {
    var init := s[..|s| - 1];
    assert ("0" + s)[..|s|] == "0" + init;
    if init == "" {
      assert "0" + init == "0" && ParseDigits("0") == Some(0);
    } else {
      LeadingZero(init);
    }
  }

  /** A text is read as a number exactly when it is digits, perhaps after a minus sign;
      leading zeros change nothing. */
  lemma ParseIntReads(s: string)
    ensures ParseInt(s).Some? <==>
            (s != "" && AllDigits(s)) || (|s| > 1 && s[0] == '-' && AllDigits(s[1..]))
    ensures s != "" && AllDigits(s) ==> ParseInt("0" + s) == ParseInt(s)
  {
    hide ParseDigits;
    ParseDigitsReads(s);
    if s != "" {
      LeadingZero(s);
      ParseDigitsReads(s[1..]);
    }
  }

  lemma DecimalInjective(a: int, b: int)
    requires Decimal(a) == Decimal(b)
    ensures a == b
  {
    ParseRendered(a);
    ParseRendered(b);
  }

  lemma DecimalCharacters(n: int)
    ensures forall c | c in Decimal(n) :: c == '-' || '0' <= c <= '9'
  {
    if n < 0 {
      assert forall c | c in Decimal(n) :: c == '-' || c in Digits(-n);
    }
  }
}
