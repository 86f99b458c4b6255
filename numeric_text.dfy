/** join_numeric: the byte dump that goes into the two validation error
    messages. Each item is written as an unsigned number in the stream's base
    (octal by default, hexadecimal where ReadDataRaw calls it), with the
    delimiter between items. */
module NumericText {

  /** The three values of std::ios::basefield. */
  datatype Radix = Oct | Dec | Hex

  function Base(r: Radix): (b: nat)
    ensures 2 <= b <= 16
  {
    match r
    case Oct => 8
    case Dec => 10
    case Hex => 16
  }

  /** The digits an ostream uses: lower case, as without std::uppercase. */
  const DigitChars: string := "0123456789abcdef"

  /** `s << n` for a non-negative n in base b: no prefix (std::showbase is
      not set) and no leading zeros. */
  function Digits(n: nat, b: nat): (s: string)
    requires 2 <= b <= 16
    decreases n
  {
    if n < b then [DigitChars[n]] else Digits(n / b, b) + [DigitChars[n % b]]
  }

  /** The value of one digit character; 0 for anything else. */
  function DigitValue(c: char): nat
  {
    if '0' <= c <= '9' then c as nat - '0' as nat
    else if 'a' <= c <= 'f' then c as nat - 'a' as nat + 10
    else 0
  }

  /** Reading a digit string back, most significant digit first. */
  function ParseDigits(s: string, b: nat): nat
  {
    if s == [] then 0 else ParseDigits(s[..|s| - 1], b) * b + DigitValue(s[|s| - 1])
  }

  /** The characters DigitChars holds. */
  predicate IsDigitChar(c: char)
  {
    '0' <= c <= '9' || 'a' <= c <= 'f'
  }

  lemma DigitValueOf(k: nat)
    requires k < 16
    ensures IsDigitChar(DigitChars[k]) && DigitValue(DigitChars[k]) == k
  {
  }

  /** A number's text is non-empty, uses only the base's digits and has no
      leading zero. */
  lemma {:induction false} DigitsShape(n: nat, b: nat)
    requires 2 <= b <= 16
    ensures |Digits(n, b)| > 0
    ensures forall i :: 0 <= i < |Digits(n, b)| ==>
      IsDigitChar(Digits(n, b)[i]) && DigitValue(Digits(n, b)[i]) < b
    ensures n > 0 ==> Digits(n, b)[0] != '0'
    decreases n
  {
    var s := Digits(n, b);
    if n >= b {
      DigitsShape(n / b, b);
      DigitValueOf(n % b);
      var p := Digits(n / b, b);
      assert s == p + [DigitChars[n % b]];
      assert s[0] == p[0];
      forall i | 0 <= i < |s| ensures IsDigitChar(s[i]) && DigitValue(s[i]) < b {
        if i < |p| {
          assert s[i] == p[i];
        }
      }
    } else {
      DigitValueOf(n);
    }
  }

  lemma DivMod(n: nat, b: nat)
    requires 2 <= b
    ensures (n / b) * b + n % b == n
  {
  }

  lemma ParseSnoc(p: string, c: char, b: nat)
    ensures ParseDigits(p + [c], b) == ParseDigits(p, b) * b + DigitValue(c)
  {
    assert (p + [c])[..|p|] == p;
  }

  lemma SingleDigit(n: nat, b: nat)
    requires 2 <= b <= 16 && n < b
    ensures ParseDigits(Digits(n, b), b) == n
  {
    DigitValueOf(n);
    ParseSnoc([], DigitChars[n], b);
    assert [] + [DigitChars[n]] == Digits(n, b);
  }

  lemma LastDigit(n: nat, b: nat)
    requires 2 <= b <= 16 && n >= b
    requires ParseDigits(Digits(n / b, b), b) == n / b
    ensures ParseDigits(Digits(n, b), b) == n
  {
    var q, r := n / b, n % b;
    DigitValueOf(r);
    ParseSnoc(Digits(q, b), DigitChars[r], b);
    DivMod(n, b);
  }

  /** A number's text reads back as the number. */
  lemma {:induction false} DigitsRoundTrip(n: nat, b: nat)
    requires 2 <= b <= 16
    ensures ParseDigits(Digits(n, b), b) == n
    decreases n
  {
    if n < b {
      SingleDigit(n, b);
    } else {
      DigitsRoundTrip(n / b, b);
      LastDigit(n, b);
    }
  }

  /** One item as `s << +(*iter)` writes it: the byte promoted to int. */
  function Text(item: bv8, radix: Radix): string
  {
    Digits(item as nat, Base(radix))
  }

  /** The text join_numeric builds: the items' texts, the delimiter before
      every item but the first. */
  function Join(items: seq<bv8>, delim: string, radix: Radix): string
  {
    if items == [] then ""
    else
      var init := items[..|items| - 1];
      Join(init, delim, radix) + (if init == [] then "" else delim) + Text(items[|items| - 1], radix)
  }

  /** join_numeric: one pass over the container, appending to the stream. */
  method JoinNumeric(container: seq<bv8>, delim: string, radix: Radix) returns (s: string)
    ensures s == Join(container, delim, radix)
  {
    s := "";
    for i := 0 to |container|
      invariant s == Join(container[..i], delim, radix)
    {
      assert container[..i + 1][..i] == container[..i];
      if i != 0 {
        s := s + delim;
      }
      s := s + Text(container[i], radix);
    }
    assert container[..|container|] == container;
  }

  /** The position of the last occurrence of d in s. */
  function LastIndexOf(s: string, d: char): (k: nat)
    requires d in s
    ensures k < |s| && s[k] == d && d !in s[k + 1..]
  {
    if s[|s| - 1] == d then |s| - 1
    else
      assert d in s[..|s| - 1] by {
        var j :| 0 <= j < |s| && s[j] == d;
        assert s[..|s| - 1][j] == d;
      }
      var k := LastIndexOf(s[..|s| - 1], d);
      assert s[k + 1..] == s[..|s| - 1][k + 1..] + [s[|s| - 1]];
      k
  }

  /** The pieces of s between occurrences of the single-character delimiter d. */
  function SplitOn(s: string, d: char): (parts: seq<string>)
    decreases |s|
  {
    if d !in s then [s]
    else
      var k := LastIndexOf(s, d);
      SplitOn(s[..k], d) + [s[k + 1..]]
  }

  lemma LastIndexOfAppend(a: string, d: char, b: string)
    requires d !in b
    ensures d in a + [d] + b && LastIndexOf(a + [d] + b, d) == |a|
  {
    var s := a + [d] + b;
    assert s[|a|] == d;
    var k := LastIndexOf(s, d);
    assert s[|a| + 1..] == b;
  }

  /** Splitting a text that ends in the delimiter and a delimiter-free tail. */
  lemma SplitOnAppend(a: string, d: char, t: string)
    requires d !in t
    ensures SplitOn(a + [d] + t, d) == SplitOn(a, d) + [t]
  {
    LastIndexOfAppend(a, d, t);
    var s := a + [d] + t;
    assert s[..|a|] == a && s[|a| + 1..] == t;
  }

  /** The items' texts, in order. */
  function Texts(items: seq<bv8>, radix: Radix): seq<string>
  {
    if items == [] then [] else Texts(items[..|items| - 1], radix) + [Text(items[|items| - 1], radix)]
  }

  lemma {:induction false} TextsAt(items: seq<bv8>, radix: Radix, k: nat)
    requires k < |items|
    ensures |Texts(items, radix)| == |items| && Texts(items, radix)[k] == Text(items[k], radix)
    decreases |items|
  {
    var init := items[..|items| - 1];
    if k < |init| {
      TextsAt(init, radix, k);
    } else if init != [] {
      TextsAt(init, radix, 0);
    }
    if init == [] {
      assert Texts(init, radix) == [];
    }
  }

  /** With a one-character delimiter that is not a digit, the joined text
      splits back into the items' texts. */
  lemma {:induction false} JoinSplit(items: seq<bv8>, d: char, radix: Radix)
    requires |items| > 0 && !IsDigitChar(d)
    ensures SplitOn(Join(items, [d], radix), d) == Texts(items, radix)
    decreases |items|
  {
    var n := |items|;
    var t := Text(items[n - 1], radix);
    DigitsShape(items[n - 1] as nat, Base(radix));
    assert d !in t by {
      forall i | 0 <= i < |t| ensures t[i] != d {
        assert IsDigitChar(t[i]);
      }
    }
    var init := items[..n - 1];
    if init == [] {
      assert Join(items, [d], radix) == t;
      assert Texts(init, radix) == [];
    } else {
      var j := Join(init, [d], radix);
      assert Join(items, [d], radix) == j + [d] + t;
      SplitOnAppend(j, d, t);
      JoinSplit(init, d, radix);
    }
  }

  /** ... and each text reads back as its byte: the dump loses nothing. */
  lemma JoinReadsBack(items: seq<bv8>, d: char, radix: Radix)
    requires |items| > 0 && !IsDigitChar(d)
    ensures var parts := SplitOn(Join(items, [d], radix), d);
      |parts| == |items| &&
      forall k :: 0 <= k < |items| ==> ParseDigits(parts[k], Base(radix)) == items[k] as nat
  {
    JoinSplit(items, d, radix);
    forall k | 0 <= k < |items|
      ensures |Texts(items, radix)| == |items| && ParseDigits(Texts(items, radix)[k], Base(radix)) == items[k] as nat
    {
      TextsAt(items, radix, k);
      DigitsRoundTrip(items[k] as nat, Base(radix));
    }
  }
}
