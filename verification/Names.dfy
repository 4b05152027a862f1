/** Go's string helpers: `strings.Split` on slashes, joining, `strings.HasSuffix`, and `%d`. */
module Names {

  predicate NoSlash(s: string) { '/' !in s }

  /** Go's `strings.HasSuffix`. */
  predicate HasSuffix(s: string, suffix: string) {
    |suffix| <= |s| && s[|s| - |suffix|..] == suffix
  }

  lemma SuffixIff(s: string, suffix: string)
    ensures HasSuffix(s, suffix) <==> exists q: string :: s == q + suffix
  {
    if HasSuffix(s, suffix) {
      assert s == s[..|s| - |suffix|] + suffix;
    }
  }

  function Split(s: string): (tokens: seq<string>)
    ensures |tokens| >= 1
    ensures forall i :: 0 <= i < |tokens| ==> NoSlash(tokens[i])
  {
    if s == "" then [""]
    else
      var rest := Split(s[1..]);
      if s[0] == '/' then [""] + rest else [[s[0]] + rest[0]] + rest[1..]
  }

  function Join(tokens: seq<string>): string
    requires tokens != []
  {
    if |tokens| == 1 then tokens[0] else tokens[0] + "/" + Join(tokens[1..])
  }

  lemma {:induction false} JoinSplit(s: string)
    ensures Join(Split(s)) == s
  {
    if s != "" {
      JoinSplit(s[1..]);
      var rest := Split(s[1..]);
      if s[0] == '/' {
        assert ([""] + rest)[1..] == rest;
      } else {
        var t := [[s[0]] + rest[0]] + rest[1..];
        assert t[1..] == rest[1..];
      }
    }
  }

  lemma {:induction false} SplitToken(a: string, s: string)
    requires NoSlash(a)
    ensures Split(a + "/" + s) == [a] + Split(s)
  {
    if a == "" {
      assert ("" + "/" + s)[1..] == s;
    } else {
      SplitToken(a[1..], s);
      assert (a + "/" + s)[1..] == a[1..] + "/" + s;
      assert [a[0]] + a[1..] == a;
    }
  }

  lemma {:induction false} SplitPlain(a: string)
    requires NoSlash(a)
    ensures Split(a) == [a]
  {
    if a != "" {
      SplitPlain(a[1..]);
      assert [a[0]] + a[1..] == a;
    }
  }

  /** The form every name here has: `collection/parent/feeds/id`, joined and split. */
  lemma SplitFour(a: string, b: string, c: string, d: string)
    requires NoSlash(a) && NoSlash(b) && NoSlash(c) && NoSlash(d)
    ensures Split(a + "/" + b + "/" + c + "/" + d) == [a, b, c, d]
  {
    SplitPlain(d);
    SplitToken(c, d);
    SplitToken(b, c + "/" + d);
    SplitToken(a, b + "/" + (c + "/" + d));
    Associate(a, b, c, d);
  }

  lemma JoinFour(s: string)
    requires |Split(s)| == 4
    ensures var t := Split(s); s == t[0] + "/" + t[1] + "/" + t[2] + "/" + t[3]
  {
    var t := Split(s);
    JoinSplit(s);
    var u := t[1..];
    var v := u[1..];
    assert v[1..] == [t[3]];
    assert Join(v) == t[2] + "/" + t[3];
    assert Join(u) == t[1] + "/" + Join(v);
    assert Join(t) == t[0] + "/" + Join(u);
    Associate(t[0], t[1], t[2], t[3]);
  }

  lemma Associate(a: string, b: string, c: string, d: string)
    ensures a + "/" + b + "/" + c + "/" + d == a + "/" + (b + "/" + (c + "/" + d))
  {
    assert a + "/" + b + "/" + c + "/" + d == a + ("/" + b) + ("/" + c) + ("/" + d);
  }

  // ---------------------------------------------------------------- decimal numbers

  function Digit(n: nat): char
    requires n < 10
  {
    ['0', '1', '2', '3', '4', '5', '6', '7', '8', '9'][n]
  }

  function Digits(n: nat): (s: string)
    ensures s != "" && (|s| == 1 <==> n < 10)
    ensures forall i :: 0 <= i < |s| ==> '0' <= s[i] <= '9'
  {
    if n < 10 then [Digit(n)] else Digits(n / 10) + [Digit(n % 10)]
  }

  /** `%d`. */
  function Decimal(n: int): (s: string)
    ensures NoSlash(s) && s != "" && (s[0] == '-' <==> n < 0)
  {
    if n < 0 then "-" + Digits(-n) else Digits(n)
  }

  /** The number that decimal digits stand for. */
  ghost function Reading(s: string): int {
    if s == "" then 0 else 10 * Reading(s[..|s| - 1]) + (s[|s| - 1] as int - '0' as int)
  }

  /** Reading the digits back gives the number, and there is no leading zero. */
  lemma {:induction false} DigitsRead(n: nat)
    ensures Reading(Digits(n)) == n
    ensures |Digits(n)| > 1 ==> Digits(n)[0] != '0'
  {
    assert forall d :: 0 <= d < 10 ==> Digit(d) as int == '0' as int + d;
    var s := Digits(n);
    if n < 10 {
      assert s[..0] == "";
    } else {
      DigitsRead(n / 10);
      assert s[..|s| - 1] == Digits(n / 10);
    }
  }

  lemma DecimalReads(n: int)
    ensures n >= 0 ==> Reading(Decimal(n)) == n
    ensures n < 0 ==> Decimal(n)[0] == '-' && Reading(Decimal(n)[1..]) == -n
  {
    if n >= 0 {
      DigitsRead(n);
    } else {
      DigitsRead(-n);
      assert Decimal(n)[1..] == Digits(-n);
    }
  }

  lemma DecimalInjective(m: int, n: int)
    requires Decimal(m) == Decimal(n)
    ensures m == n
  {
    DecimalReads(m);
    DecimalReads(n);
  }
}
