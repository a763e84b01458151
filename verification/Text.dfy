/** Strings as the Go standard library compares, trims and formats them.

    Go compares strings byte by byte; on UTF-8 text that is the order of the code points, which is
    the order used here. */
module Text {

  /** Go's `a < b` on strings. */
  predicate Before(a: string, b: string) {
    if b == "" then false
    else if a == "" then true
    else if a[0] != b[0] then a[0] < b[0]
    else Before(a[1..], b[1..])
  }

  /** The strings agree on their first `k` characters, and then `a` ends or has the smaller character. */
  ghost predicate SmallerAt(a: string, b: string, k: nat) {
    k <= |a| && k < |b| && (forall i :: 0 <= i < k ==> a[i] == b[i]) && (k == |a| || a[k] < b[k])
  }

  /** The order is lexicographic: the first difference decides, and a proper prefix comes first. */
  lemma {:induction false} BeforeMeaning(a: string, b: string)
    ensures Before(a, b) <==> exists k: nat :: SmallerAt(a, b, k)
  {
    if b == "" {
    } else if a == "" || a[0] != b[0] {
      assert a == "" || a[0] < b[0] ==> SmallerAt(a, b, 0);
    } else {
      BeforeMeaning(a[1..], b[1..]);
      if k: nat :| SmallerAt(a[1..], b[1..], k) {
        assert forall i :: 0 < i <= k ==> a[i] == a[1..][i - 1] && b[i] == b[1..][i - 1];
        assert SmallerAt(a, b, k + 1);
      }
      if k: nat :| SmallerAt(a, b, k) {
        assert SmallerAt(a[1..], b[1..], k - 1);
      }
    }
  }

  lemma {:induction false} BeforeTrichotomy(a: string, b: string)
    ensures !(Before(a, b) && Before(b, a))
    ensures Before(a, b) || Before(b, a) <==> a != b
  {
    if a == "" || b == "" {
    } else if a[0] != b[0] {
    } else {
      BeforeTrichotomy(a[1..], b[1..]);
      assert a == [a[0]] + a[1..] && b == [b[0]] + b[1..];
    }
  }

  lemma {:induction false} BeforeTransitive(a: string, b: string, c: string)
    requires Before(a, b) && Before(b, c)
    ensures Before(a, c)
  {
    if a == "" || b == "" || c == "" {
    } else if a[0] != b[0] || b[0] != c[0] {
    } else {
      BeforeTransitive(a[1..], b[1..], c[1..]);
    }
  }

  /** `<` on strings is a strict total order. */
  lemma BeforeIsTotalOrder()
    ensures forall a, b :: !(Before(a, b) && Before(b, a))
    ensures forall a, b :: Before(a, b) || Before(b, a) <==> a != b
    ensures forall a, b, c :: Before(a, b) && Before(b, c) ==> Before(a, c)
  {
    forall a, b {
      BeforeTrichotomy(a, b);
    }
    forall a, b, c | Before(a, b) && Before(b, c) ensures Before(a, c) {
      BeforeTransitive(a, b, c);
    }
  }

  /** The white space of `unicode.IsSpace`. */
  predicate IsSpace(c: char) {
    || '\t' <= c <= '\r' || c == ' ' || c == '\U{0085}' || c == '\U{00A0}' || c == '\U{1680}'
    || '\U{2000}' <= c <= '\U{200a}' || c == '\U{2028}' || c == '\U{2029}' || c == '\U{202f}'
    || c == '\U{205f}' || c == '\U{3000}'
  }

  /** The white space characters one by one. */
  lemma SpacesSpelled(c: char)
    ensures IsSpace(c) <==>
            || c in "\t\n\U{000B}\U{000C}\r \U{0085}\U{00A0}\U{1680}\U{2028}\U{2029}\U{202F}\U{205F}\U{3000}"
            || c in "\U{2000}\U{2001}\U{2002}\U{2003}\U{2004}\U{2005}\U{2006}\U{2007}\U{2008}\U{2009}\U{200A}"
  {
  }

  function TrimLeft(s: string, cut: char -> bool): string {
    if s == "" || !cut(s[0]) then s else TrimLeft(s[1..], cut)
  }

  function TrimRight(s: string, cut: char -> bool): string {
    if s == "" || !cut(s[|s| - 1]) then s else TrimRight(s[..|s| - 1], cut)
  }

  /** `strings.Trim` with a cut set. */
  function Trim(s: string, cut: char -> bool): string {
    TrimRight(TrimLeft(s, cut), cut)
  }

  const SPACE: char -> bool := c => IsSpace(c)

  function TrimSpace(s: string): string {
    Trim(s, SPACE)
  }

  /** The string is empty or has neither end in the cut set. */
  predicate CleanEnds(s: string, cut: char -> bool) {
    s == "" || (!cut(s[0]) && !cut(s[|s| - 1]))
  }

  lemma {:induction false} TrimLeftMeaning(s: string, cut: char -> bool)
    ensures var t := TrimLeft(s, cut);
            |t| <= |s| && t == s[|s| - |t|..] && (t != "" ==> !cut(t[0]))
            && (forall i :: 0 <= i < |s| - |t| ==> cut(s[i]))
  {
    if s == "" || !cut(s[0]) {
    } else {
      var t := TrimLeft(s[1..], cut);
      TrimLeftMeaning(s[1..], cut);
      forall i | 0 <= i < |s| - |t| ensures cut(s[i]) {
        assert i > 0 ==> s[i] == s[1..][i - 1];
      }
    }
  }

  lemma {:induction false} TrimRightMeaning(s: string, cut: char -> bool)
    ensures var t := TrimRight(s, cut);
            |t| <= |s| && t == s[..|t|] && (t != "" ==> !cut(t[|t| - 1]))
            && (forall i :: |t| <= i < |s| ==> cut(s[i]))
  {
    if s == "" || !cut(s[|s| - 1]) {
    } else {
      var init := s[..|s| - 1];
      TrimRightMeaning(init, cut);
      forall i | |TrimRight(init, cut)| <= i < |s| ensures cut(s[i]) {
        assert i < |init| ==> s[i] == init[i];
      }
    }
  }

  /** Trimming leaves a contiguous piece with clean ends, drops cut characters only, and changes
      nothing exactly when the ends are already clean. */
  lemma TrimMeaning(s: string, cut: char -> bool)
    ensures CleanEnds(Trim(s, cut), cut)
    ensures Trim(s, cut) == s <==> CleanEnds(s, cut)
    ensures exists i, j :: 0 <= i <= j <= |s| && Trim(s, cut) == s[i..j] &&
              (forall k :: 0 <= k < i || j <= k < |s| ==> cut(s[k]))
  {
    var left := TrimLeft(s, cut);
    TrimLeftMeaning(s, cut);
    TrimRightMeaning(left, cut);
    var i := |s| - |left|;
    var j := i + |Trim(s, cut)|;
    assert Trim(s, cut) == s[i..j];
    forall k | j <= k < |s| ensures cut(s[k]) {
      assert s[k] == left[k - i];
    }
    if Trim(s, cut) != "" && i > 0 {
      assert cut(s[0]);
    }
  }

  /** The only non-empty piece with clean ends between two stretches of cut characters is what trimming leaves. */
  lemma TrimUnique(s: string, cut: char -> bool, i: nat, j: nat)
    requires i < j <= |s| && !cut(s[i]) && !cut(s[j - 1])
    requires forall k :: 0 <= k < i || j <= k < |s| ==> cut(s[k])
    ensures Trim(s, cut) == s[i..j]
  {
    TrimMeaning(s, cut);
    var a, b :| 0 <= a <= b <= |s| && Trim(s, cut) == s[a..b] && (forall k :: 0 <= k < a || b <= k < |s| ==> cut(s[k]));
    assert a <= i && j <= b;
    assert Trim(s, cut)[0] == s[a] && Trim(s, cut)[|Trim(s, cut)| - 1] == s[b - 1];
  }

  function Digit(d: nat): (c: char)
    requires d < 10
    ensures '0' <= c <= '9'
  {
    '0' + d as char
  }

  predicate AllDigits(s: string) {
    forall i :: 0 <= i < |s| ==> '0' <= s[i] <= '9'
  }

  /** The `%d` form of a natural number. */
  function Decimal(n: nat): (s: string)
    ensures s != "" && AllDigits(s)
  {
    if n < 10 then [Digit(n)] else Decimal(n / 10) + [Digit(n % 10)]
  }

  /** The number a digit string stands for, most significant digit first. */
  function Value(s: string): nat
    requires AllDigits(s)
  {
    if s == "" then 0 else 10 * Value(s[..|s| - 1]) + (s[|s| - 1] as int - '0' as int)
  }

  lemma {:induction false} DecimalRoundTrip(n: nat)
    ensures Value(Decimal(n)) == n
  {
    if n < 10 {
      assert Decimal(n)[..0] == "";
    } else {
      DecimalRoundTrip(n / 10);
      assert Decimal(n)[..|Decimal(n)| - 1] == Decimal(n / 10);
    }
  }
}
