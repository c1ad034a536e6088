/** Strings as the Go sources use them: `strings.Split`, `%d`, and the order of `strings.Compare`. */
module Text {
  import opened Lex

  // ---------- Characters ----------

  predicate IsAlnum(c: char) {
    'a' <= c <= 'z' || 'A' <= c <= 'Z' || '0' <= c <= '9'
  }

  predicate AllAlnum(s: string) {
    forall c :: c in s ==> IsAlnum(c)
  }

  // ---------- Splitting ----------

  /** `strings.Split(s, sep)` for a separator of one character; there is always at least one part. */
  function Split(s: string, sep: char): (parts: seq<string>)
    ensures |parts| >= 1
  {
    if s == [] then [""] else Glued(s[0], Split(s[1..], sep), sep)
  }

  /** The parts of a string with one more character in front. */
  function Glued(c: char, parts: seq<string>, sep: char): (r: seq<string>)
    requires |parts| >= 1
    ensures |r| >= 1
  {
    if c == sep then [""] + parts else [[c] + parts[0]] + parts[1..]
  }

  lemma GluedConcat(c: char, a: seq<string>, b: seq<string>, sep: char)
    requires |a| >= 1
    ensures Glued(c, a + b, sep) == Glued(c, a, sep) + b
  {
  }

  lemma {:induction false} SplitNone(s: string, sep: char)
    requires sep !in s
    ensures Split(s, sep) == [s]
  {
    if s != [] {
      SplitNone(s[1..], sep);
      assert s[0] in s && s == [s[0]] + s[1..];
    }
  }

  /** Every character of every part comes from the string, and none is the separator. */
  lemma {:induction false} SplitChars(s: string, sep: char)
    ensures forall p :: p in Split(s, sep) ==> sep !in p && forall c :: c in p ==> c in s
  {
    if s != [] {
      SplitChars(s[1..], sep);
      var rest := Split(s[1..], sep);
      assert rest[0] in rest;
      forall p | p in Split(s, sep) ensures sep !in p && forall c :: c in p ==> c in s {
        if s[0] == sep || p != [s[0]] + rest[0] {
          assert p == "" || p in rest;
        } else {
          assert forall c :: c in p ==> c == s[0] || c in rest[0];
        }
      }
    }
  }

  /** A part that ends at a separator is not changed by what follows. */
  lemma {:induction false} SplitAppend(s: string, t: string, sep: char)
    ensures Split(s + [sep] + t, sep) == Split(s, sep) + Split(t, sep)
  {
    if s == [] {
      assert s + [sep] + t == [sep] + t;
    } else {
      assert (s + [sep] + t)[1..] == s[1..] + [sep] + t;
      SplitAppend(s[1..], t, sep);
      GluedConcat(s[0], Split(s[1..], sep), Split(t, sep), sep);
    }
  }

  // ---------- Decimal numbers ----------

  function Digit(d: nat): (c: char)
    requires d < 10
    ensures IsAlnum(c) && '0' <= c <= '9'
  {
    "0123456789"[d]
  }

  /** `%d` of a natural number. */
  function Decimal(n: nat): (s: string)
    ensures |s| >= 1 && forall c :: c in s ==> '0' <= c <= '9'
  {
    if n < 10 then [Digit(n)] else Decimal(n / 10) + [Digit(n % 10)]
  }

  lemma {:induction false} DecimalInjective(m: nat, n: nat)
    requires Decimal(m) == Decimal(n)
    ensures m == n
    decreases m
  {
    var s, t := Decimal(m), Decimal(n);
    assert s[|s| - 1] == Digit(m % 10) && t[|t| - 1] == Digit(n % 10);
    assert m % 10 == n % 10;
    if m >= 10 && n >= 10 {
      assert s[..|s| - 1] == Decimal(m / 10) && t[..|t| - 1] == Decimal(n / 10);
      DecimalInjective(m / 10, n / 10);
    }
  }

  /** The number that a string of decimal digits stands for. */
  function FromDecimal(s: string): int {
    if s == "" then 0 else 10 * FromDecimal(s[..|s| - 1]) + s[|s| - 1] as int - '0' as int
  }

  /** The decimal text of a number stands for it, and has no leading zero. */
  lemma {:induction false} DecimalExactly(n: nat)
    ensures FromDecimal(Decimal(n)) == n && (Decimal(n)[0] == '0' ==> |Decimal(n)| == 1)
    decreases n
  {
    var s := Decimal(n);
    assert s[|s| - 1] as int - '0' as int == n % 10;
    if n >= 10 {
      DecimalExactly(n / 10);
      assert s[..|s| - 1] == Decimal(n / 10);
      assert Decimal(n / 10) != "0";
    } else {
      assert s[..|s| - 1] == "";
    }
  }

  lemma DecimalAlnum(n: nat)
    ensures AllAlnum(Decimal(n))
  {
  }

  // ---------- Order ----------

  function Codes(s: string): (xs: seq<int>)
    ensures |xs| == |s|
  {
    seq(|s|, i requires 0 <= i < |s| => s[i] as int)
  }

  predicate StrLess(a: string, b: string) {
    Less(Codes(a), Codes(b))
  }

  lemma StrLessTotal(a: string, b: string)
    ensures a == b || StrLess(a, b) || StrLess(b, a)
  {
    LessTotal(Codes(a), Codes(b));
    if Codes(a) == Codes(b) {
      forall i | 0 <= i < |a| ensures a[i] == b[i] {
        assert Codes(a)[i] == Codes(b)[i];
      }
    }
  }

  /** Strictly descending, as `sortedJSONKeys` orders the keys. */
  ghost predicate Descending(ks: seq<string>) {
    forall i, j :: 0 <= i < j < |ks| ==> StrLess(ks[j], ks[i])
  }

  /** Puts a key into its place, once. */
  function Insert(k: string, ks: seq<string>): seq<string> {
    if ks == [] then [k]
    else if k == ks[0] then ks
    else if StrLess(ks[0], k) then [k] + ks
    else [ks[0]] + Insert(k, ks[1..])
  }

  lemma {:induction false} InsertDescending(k: string, ks: seq<string>)
    requires Descending(ks)
    ensures Descending(Insert(k, ks))
    ensures forall x :: x in Insert(k, ks) <==> x == k || x in ks
  {
    if ks != [] && k != ks[0] {
      if StrLess(ks[0], k) {
        forall j | 0 <= j < |ks| ensures StrLess(ks[j], k) {
          if j > 0 { LessTransitive(Codes(ks[j]), Codes(ks[0]), Codes(k)); }
        }
      } else {
        InsertDescending(k, ks[1..]);
        StrLessTotal(k, ks[0]);
        assert ks == [ks[0]] + ks[1..];
        var rest := Insert(k, ks[1..]);
        forall j | 0 <= j < |rest| ensures StrLess(rest[j], ks[0]) {
          if rest[j] != k {
            assert rest[j] in ks[1..];
          }
        }
      }
    }
  }

  /** The keys in strictly descending order, each once. */
  function SortDescending(ks: seq<string>): (sorted: seq<string>)
    ensures Descending(sorted)
    ensures forall x :: x in sorted <==> x in ks
  {
    if ks == [] then []
    else
      InsertDescending(ks[0], SortDescending(ks[1..]));
      assert ks == [ks[0]] + ks[1..];
      Insert(ks[0], SortDescending(ks[1..]))
  }

  /** A strictly descending sequence is determined by its elements. */
  lemma {:induction false} DescendingUnique(a: seq<string>, b: seq<string>)
    requires Descending(a) && Descending(b) && forall x :: x in a <==> x in b
    ensures a == b
  {
    assert (a != [] ==> a[0] in b) && (b != [] ==> b[0] in a);
    if a != [] {
      HeadIsGreatest(a, b[0]);
      HeadIsGreatest(b, a[0]);
      if a[0] != b[0] {
        LessAsymmetric(Codes(a[0]), Codes(b[0]));
      }
      TailWithout(a);
      TailWithout(b);
      DescendingUnique(a[1..], b[1..]);
    }
  }

  lemma HeadIsGreatest(a: seq<string>, x: string)
    requires Descending(a) && x in a
    ensures x == a[0] || StrLess(x, a[0])
  {
  }

  lemma TailWithout(a: seq<string>)
    requires Descending(a) && a != []
    ensures forall x :: x in a[1..] <==> x in a && x != a[0]
  {
    if a[0] in a[1..] {
      LessAsymmetric(Codes(a[0]), Codes(a[0]));
    }
    assert a == [a[0]] + a[1..];
  }
}
