/** `SQL_Slice_To_In_Args` (util.go): renders a Go slice as the text of an SQL
 *  `IN (...)` list. The method keeps the source's accumulator loops; the
 *  functions beside it say what the accumulated text is, and the lemmas read
 *  that text back. */
module InArgs {
  import opened Entities

  /** The dynamic type of the `any` argument: an untyped nil, one of the three
   *  slice types the switch knows, or anything else. */
  datatype SliceArg =
    | NilArg
    | Strings(strings: seq<string>)
    | Uint64s(naturals: seq<nat>)
    | Ints(integers: seq<int>)
    | OtherType

  function DigitChar(d: nat): char
    requires d < 10
  {
    ('0' as int + d) as char
  }

  function DigitValue(c: char): nat
  {
    if '0' <= c <= '9' then c as int - '0' as int else 0
  }

  /** `fmt.Sprintf("%d", n)` for a non-negative number. */
  function Decimal(n: nat): (r: string)
    ensures |r| > 0 && forall c :: c in r ==> '0' <= c <= '9'
  {
    if n < 10 then [DigitChar(n)] else Decimal(n / 10) + [DigitChar(n % 10)]
  }

  /** `fmt.Sprintf("%d", i)` for any `int`. */
  function SignedDecimal(i: int): (r: string)
    ensures ',' !in r
  {
    if i < 0 then "-" + Decimal(-i) else Decimal(i)
  }

  /** `fmt.Sprintf("'%s'", s)`: no escaping of quotes inside `s`. */
  function Quote(s: string): string
  {
    "'" + s + "'"
  }

  /** Reads decimal digits back, most significant first. */
  function ParseDecimal(s: string): nat
  {
    if |s| == 0 then 0 else ParseDecimal(s[..|s| - 1]) * 10 + DigitValue(s[|s| - 1])
  }

  function ParseSigned(s: string): int
  {
    if |s| > 0 && s[0] == '-' then -(ParseDecimal(s[1..]) as int) else ParseDecimal(s)
  }

  /** Strips the first and last character, the inverse of `Quote`. */
  function Unquote(s: string): string
  {
    if |s| < 2 then s else s[1..|s| - 1]
  }

  // Element-wise renderings, built front to back as the loops build them.

  function QuotedAll(ss: seq<string>): (r: seq<string>)
    ensures |r| == |ss|
  {
    if |ss| == 0 then [] else QuotedAll(ss[..|ss| - 1]) + [Quote(ss[|ss| - 1])]
  }

  function DecimalAll(ns: seq<nat>): (r: seq<string>)
    ensures |r| == |ns|
  {
    if |ns| == 0 then [] else DecimalAll(ns[..|ns| - 1]) + [Decimal(ns[|ns| - 1])]
  }

  function SignedAll(xs: seq<int>): (r: seq<string>)
    ensures |r| == |xs|
  {
    if |xs| == 0 then [] else SignedAll(xs[..|xs| - 1]) + [SignedDecimal(xs[|xs| - 1])]
  }

  function UnquoteAll(ps: seq<string>): (r: seq<string>)
    ensures |r| == |ps|
  {
    if |ps| == 0 then [] else UnquoteAll(ps[..|ps| - 1]) + [Unquote(ps[|ps| - 1])]
  }

  function ParseAll(ps: seq<string>): (r: seq<nat>)
    ensures |r| == |ps|
  {
    if |ps| == 0 then [] else ParseAll(ps[..|ps| - 1]) + [ParseDecimal(ps[|ps| - 1])]
  }

  function ParseSignedAll(ps: seq<string>): (r: seq<int>)
    ensures |r| == |ps|
  {
    if |ps| == 0 then [] else ParseSignedAll(ps[..|ps| - 1]) + [ParseSigned(ps[|ps| - 1])]
  }

  /** The parts separated by commas. */
  function JoinComma(ps: seq<string>): string
  {
    if |ps| == 0 then ""
    else if |ps| == 1 then ps[0]
    else JoinComma(ps[..|ps| - 1]) + "," + ps[|ps| - 1]
  }

  /** Every integer followed by a comma (the `[]int` branch). */
  function Terminated(xs: seq<int>): string
  {
    if |xs| == 0 then "" else Terminated(xs[..|xs| - 1]) + SignedDecimal(xs[|xs| - 1]) + ","
  }

  /** The text the function returns, case by case. */
  function Rendered(slice: SliceArg): string
  {
    match slice
    case NilArg => "()"
    case Strings(ss) => "(" + JoinComma(QuotedAll(ss)) + ")"
    case Uint64s(ns) => "(" + JoinComma(DecimalAll(ns)) + ")"
    case Ints(xs) => "(" + Terminated(xs) + ")"
    case OtherType => "()"
  }

  /** The text split at every comma: the reader of an IN list. */
  function SplitComma(s: string): (r: seq<string>)
    ensures |r| > 0
  {
    if |s| == 0 then [""]
    else
      var init := SplitComma(s[..|s| - 1]);
      if s[|s| - 1] == ',' then init + [""]
      else init[..|init| - 1] + [init[|init| - 1] + [s[|s| - 1]]]
  }

  /** `SQL_Slice_To_In_Args`: the rendered list, and an error exactly for an
   *  unsupported slice type. */
  method SliceToInArgs(slice: SliceArg) returns (args: string, err: Outcome)
    ensures args == Rendered(slice)
    ensures err == if slice.OtherType? then Fail(UnsupportedType) else Pass
  {
    match slice {
      case NilArg =>
        args, err := "()", Pass;
      case Strings(ss) =>
        args := QuoteEach(ss);
        err := Pass;
      case Uint64s(ns) =>
        args := SeparateEach(ns);
        err := Pass;
      case Ints(xs) =>
        args := TerminateEach(xs);
        err := Pass;
      case OtherType =>
        args, err := "()", Fail(UnsupportedType);
    }
  }

  lemma QuotedAllSnoc(ss: seq<string>, i: nat)
    requires i < |ss|
    ensures QuotedAll(ss[..i + 1]) == QuotedAll(ss[..i]) + [Quote(ss[i])]
  {
    assert ss[..i + 1][..i] == ss[..i];
  }

  lemma DecimalAllSnoc(ns: seq<nat>, i: nat)
    requires i < |ns|
    ensures DecimalAll(ns[..i + 1]) == DecimalAll(ns[..i]) + [Decimal(ns[i])]
  {
    assert ns[..i + 1][..i] == ns[..i];
  }

  lemma TerminatedAppend(xs: seq<int>, x: int)
    ensures Terminated(xs + [x]) == Terminated(xs) + SignedDecimal(x) + ","
  {
    assert (xs + [x])[..|xs|] == xs;
  }

  lemma TerminatedSnoc(xs: seq<int>, i: nat, args: string)
    requires i < |xs|
    requires args == "(" + Terminated(xs[..i])
    ensures args + (SignedDecimal(xs[i]) + ",") == "(" + Terminated(xs[..i + 1])
  {
    assert xs[..i + 1] == xs[..i] + [xs[i]];
    TerminatedAppend(xs[..i], xs[i]);
    Regroup("(", Terminated(xs[..i]), SignedDecimal(xs[i]));
  }

  lemma Regroup(p: string, a: string, d: string)
    ensures p + (a + d + ",") == (p + a) + (d + ",")
  {
  }

  lemma JoinCommaSnoc(ps: seq<string>, p: string)
    ensures JoinComma(ps + [p]) == if ps == [] then p else JoinComma(ps) + "," + p
  {
    assert (ps + [p])[..|ps|] == ps;
  }

  /** One turn of the comma-joining loops: a comma first unless the text is
   *  still "(", then the element. */
  lemma JoinStep(args: string, ps: seq<string>, p: string)
    requires args == "(" + JoinComma(ps)
    requires ps == [] <==> args == "("
    requires |p| > 0
    ensures (if args != "(" then args + "," + p else args + p) == "(" + JoinComma(ps + [p])
    ensures (if args != "(" then args + "," + p else args + p) != "("
  {
    JoinCommaSnoc(ps, p);
    if ps != [] {
      assert "(" + (JoinComma(ps) + "," + p) == ("(" + JoinComma(ps)) + "," + p;
    }
  }

  /** The `[]string` branch: a comma before every element but the first,
   *  which the source detects by the text still being "(". */
  method QuoteEach(ss: seq<string>) returns (args: string)
    ensures args == Rendered(Strings(ss))
  {
    args := "(";
    var i := 0;
    while i < |ss|
      invariant 0 <= i <= |ss|
      invariant args == "(" + JoinComma(QuotedAll(ss[..i]))
      invariant i == 0 <==> args == "("
    {
      QuotedAllSnoc(ss, i);
      JoinStep(args, QuotedAll(ss[..i]), Quote(ss[i]));
      if args != "(" {
        args := args + ",";
      }
      args := args + Quote(ss[i]);
      i := i + 1;
    }
    assert ss[..i] == ss;
    args := args + ")";
  }

  /** The `[]uint64` branch, the same loop with `%d`. */
  method SeparateEach(ns: seq<nat>) returns (args: string)
    ensures args == Rendered(Uint64s(ns))
  {
    args := "(";
    var i := 0;
    while i < |ns|
      invariant 0 <= i <= |ns|
      invariant args == "(" + JoinComma(DecimalAll(ns[..i]))
      invariant i == 0 <==> args == "("
    {
      DecimalAllSnoc(ns, i);
      JoinStep(args, DecimalAll(ns[..i]), Decimal(ns[i]));
      if args != "(" {
        args := args + ",";
      }
      args := args + Decimal(ns[i]);
      i := i + 1;
    }
    assert ns[..i] == ns;
    args := args + ")";
  }

  /** The `[]int` branch: `%d,` for every element. */
  method TerminateEach(xs: seq<int>) returns (args: string)
    ensures args == Rendered(Ints(xs))
  {
    args := "(";
    var i := 0;
    while i < |xs|
      invariant 0 <= i <= |xs|
      invariant args == "(" + Terminated(xs[..i])
    {
      TerminatedSnoc(xs, i, args);
      args := args + (SignedDecimal(xs[i]) + ",");
      i := i + 1;
    }
    assert xs[..i] == xs;
    args := args + ")";
  }

  /** Every rendering is parenthesised, and only the two cases that render
   *  nothing give the empty list "()". */
  lemma RenderedParenthesised(slice: SliceArg)
    ensures |Rendered(slice)| >= 2
    ensures Rendered(slice)[0] == '(' && Rendered(slice)[|Rendered(slice)| - 1] == ')'
    ensures Rendered(slice) == "()" <==>
              slice.NilArg? || slice.OtherType? || (slice.Strings? && slice.strings == [])
              || (slice.Uint64s? && slice.naturals == []) || (slice.Ints? && slice.integers == [])
  {
    match slice
    case Strings(ss) =>
      if ss != [] { JoinNonEmpty(QuotedAll(ss)); }
    case Uint64s(ns) =>
      if ns != [] { JoinNonEmpty(DecimalAll(ns)); }
    case Ints(xs) =>
      if xs != [] { assert |Terminated(xs)| > 0; }
    case _ =>
  }

  lemma JoinNonEmpty(ps: seq<string>)
    requires |ps| > 0 && |ps[|ps| - 1]| > 0
    ensures |JoinComma(ps)| > 0
  {
  }

  lemma DigitRoundTrip(d: nat)
    requires d < 10
    ensures DigitValue(DigitChar(d)) == d
  {
  }

  /** Reading back a rendered number gives the number. */
  lemma {:induction false} DecimalRoundTrip(n: nat)
    ensures ParseDecimal(Decimal(n)) == n
  {
    var s := Decimal(n);
    if n < 10 {
      DigitRoundTrip(n);
      assert s[..|s| - 1] == [];
    } else {
      DecimalRoundTrip(n / 10);
      DigitRoundTrip(n % 10);
      assert s[..|s| - 1] == Decimal(n / 10);
    }
  }

  lemma SignedRoundTrip(i: int)
    ensures ParseSigned(SignedDecimal(i)) == i
  {
    if i < 0 {
      DecimalRoundTrip(-i);
      assert ("-" + Decimal(-i))[1..] == Decimal(-i);
    } else {
      DecimalRoundTrip(i);
      assert Decimal(i)[0] in Decimal(i);
    }
  }

  /** Appending text without a comma extends the last part. */
  lemma {:induction false} SplitAppend(a: string, b: string)
    requires ',' !in b
    ensures var A := SplitComma(a);
            SplitComma(a + b) == A[..|A| - 1] + [A[|A| - 1] + b]
  {
    var A := SplitComma(a);
    if |b| == 0 {
      assert a + b == a;
      assert A[|A| - 1] + b == A[|A| - 1];
      assert A[..|A| - 1] + [A[|A| - 1]] == A;
    } else {
      var b', c := b[..|b| - 1], b[|b| - 1];
      assert b' + [c] == b;
      assert c in b;
      forall x | x in b' ensures x != ',' {
        assert x in b;
      }
      SplitAppend(a, b');
      var X := SplitComma(a + b');
      assert (a + b)[..|a + b| - 1] == a + b';
      assert (a + b)[|a + b| - 1] == c;
      assert SplitComma(a + b) == X[..|X| - 1] + [X[|X| - 1] + [c]];
      assert X[..|X| - 1] == A[..|A| - 1];
      assert X[|X| - 1] + [c] == A[|A| - 1] + b;
    }
  }

  /** Appending a comma starts a new, empty part. */
  lemma SplitComma_Comma(a: string)
    ensures SplitComma(a + ",") == SplitComma(a) + [""]
  {
    assert (a + ",")[..|a|] == a;
  }

  /** A comma followed by comma-free text adds that text as one more part. */
  lemma SplitAfterComma(a: string, b: string)
    requires ',' !in b
    ensures SplitComma(a + "," + b) == SplitComma(a) + [b]
  {
    SplitComma_Comma(a);
    SplitAppend(a + ",", b);
    var A := SplitComma(a + ",");
    assert A[..|A| - 1] == SplitComma(a);
    assert A[|A| - 1] + b == b;
  }

  /** Splitting undoes joining, as long as no part holds a comma. */
  lemma {:induction false} SplitJoin(ps: seq<string>)
    requires |ps| > 0
    requires forall p :: p in ps ==> ',' !in p
    ensures SplitComma(JoinComma(ps)) == ps
  {
    var last := ps[|ps| - 1];
    assert last in ps;
    if |ps| == 1 {
      SplitAppend("", last);
      assert "" + last == last;
    } else {
      var init := ps[..|ps| - 1];
      forall p | p in init ensures ',' !in p {
        assert p in ps;
      }
      SplitJoin(init);
      SplitAfterComma(JoinComma(init), last);
      assert init + [last] == ps;
    }
  }

  lemma {:induction false} DecimalAllRoundTrip(ns: seq<nat>)
    ensures ParseAll(DecimalAll(ns)) == ns
    ensures forall p :: p in DecimalAll(ns) ==> ',' !in p
  {
    if |ns| > 0 {
      var init := ns[..|ns| - 1];
      var last := ns[|ns| - 1];
      DecimalAllRoundTrip(init);
      DecimalRoundTrip(last);
      var ds := DecimalAll(ns);
      var d := Decimal(last);
      assert ds == DecimalAll(init) + [d];
      assert ds[..|ds| - 1] == DecimalAll(init) && ds[|ds| - 1] == d;
      assert ParseAll(ds) == ParseAll(DecimalAll(init)) + [last];
      assert init + [last] == ns;
      assert ',' !in d;
      forall p | p in ds ensures ',' !in p {
        if p != d {
          assert p in DecimalAll(init);
        }
      }
    }
  }

  /** A `[]uint64` list reads back as the ids it was made from: the text
   *  between the parentheses, split at the commas and parsed, is the input. */
  lemma Uint64sRoundTrip(ns: seq<nat>)
    requires |ns| > 0
    ensures var r := Rendered(Uint64s(ns));
            ParseAll(SplitComma(r[1..|r| - 1])) == ns
  {
    var r := Rendered(Uint64s(ns));
    assert r[1..|r| - 1] == JoinComma(DecimalAll(ns));
    DecimalAllRoundTrip(ns);
    SplitJoin(DecimalAll(ns));
  }

  lemma {:induction false} QuotedAllRoundTrip(ss: seq<string>)
    requires forall s :: s in ss ==> ',' !in s
    ensures UnquoteAll(QuotedAll(ss)) == ss
    ensures forall p :: p in QuotedAll(ss) ==> ',' !in p
  {
    if |ss| > 0 {
      var init := ss[..|ss| - 1];
      var last := ss[|ss| - 1];
      assert last in ss;
      forall s | s in init ensures ',' !in s {
        assert s in ss;
      }
      QuotedAllRoundTrip(init);
      var qs := QuotedAll(ss);
      var q := Quote(last);
      assert qs == QuotedAll(init) + [q];
      assert qs[..|qs| - 1] == QuotedAll(init) && qs[|qs| - 1] == q;
      assert q[1..|q| - 1] == last;
      assert UnquoteAll(qs) == UnquoteAll(QuotedAll(init)) + [last];
      assert init + [last] == ss;
      assert ',' !in q;
      forall p | p in qs ensures ',' !in p {
        if p != q {
          assert p in QuotedAll(init);
        }
      }
    }
  }

  /** A `[]string` list reads back as its strings when none holds a comma; a
   *  quote inside a string is copied as it is, so the list only means what it
   *  says when no string holds a quote either. */
  lemma StringsRoundTrip(ss: seq<string>)
    requires |ss| > 0
    requires forall s :: s in ss ==> ',' !in s
    ensures var r := Rendered(Strings(ss));
            UnquoteAll(SplitComma(r[1..|r| - 1])) == ss
  {
    var r := Rendered(Strings(ss));
    assert r[1..|r| - 1] == JoinComma(QuotedAll(ss));
    QuotedAllRoundTrip(ss);
    SplitJoin(QuotedAll(ss));
  }

  /** What a rendered `[]string` list gives the engine: at least the two
   *  parentheses, and between them the strings themselves when none holds a
   *  comma. */
  lemma StringsReadBack(ss: seq<string>)
    requires |ss| > 0
    ensures var r := Rendered(Strings(ss));
            && |r| >= 2
            && ((forall s :: s in ss ==> ',' !in s) ==> UnquoteAll(SplitComma(r[1..|r| - 1])) == ss)
  {
    RenderedParenthesised(Strings(ss));
    if forall s :: s in ss ==> ',' !in s {
      StringsRoundTrip(ss);
    }
  }

  /** The embedded quote is not escaped: the string `it's` becomes three
   *  quote characters. */
  lemma StringsNotEscaped()
    ensures Rendered(Strings(["it's"])) == "('it's')"
  {
  }

  /** A `[]int` list has a comma after every element: split at the commas it
   *  is the numbers followed by one empty part, so a non-empty list ends in
   *  ",)". */
  lemma {:induction false} TerminatedSplit(xs: seq<int>)
    ensures SplitComma(Terminated(xs)) == SignedAll(xs) + [""]
  {
    if |xs| > 0 {
      var init := xs[..|xs| - 1];
      var last := xs[|xs| - 1];
      TerminatedSplit(init);
      SplitAppend(Terminated(init), SignedDecimal(last));
      SplitComma_Comma(Terminated(init) + SignedDecimal(last));
      var A := SplitComma(Terminated(init));
      assert A[..|A| - 1] == SignedAll(init);
      assert A[|A| - 1] + SignedDecimal(last) == SignedDecimal(last);
      assert SignedAll(xs) == SignedAll(init) + [SignedDecimal(last)];
      assert Terminated(xs) == (Terminated(init) + SignedDecimal(last)) + ",";
    }
  }

  lemma {:induction false} SignedAllRoundTrip(xs: seq<int>)
    ensures ParseSignedAll(SignedAll(xs)) == xs
  {
    if |xs| > 0 {
      var init := xs[..|xs| - 1];
      SignedAllRoundTrip(init);
      SignedRoundTrip(xs[|xs| - 1]);
      var ds := SignedAll(xs);
      assert ds[..|ds| - 1] == SignedAll(init);
      assert init + [xs[|xs| - 1]] == xs;
    }
  }

  lemma IntsRoundTrip(xs: seq<int>)
    requires |xs| > 0
    ensures var r := Rendered(Ints(xs));
            && r[|r| - 2..] == ",)"
            && var parts := SplitComma(r[1..|r| - 1]);
               parts[|parts| - 1] == "" && ParseSignedAll(parts[..|parts| - 1]) == xs
  {
    var r := Rendered(Ints(xs));
    var init, last := xs[..|xs| - 1], xs[|xs| - 1];
    assert Terminated(xs) == Terminated(init) + SignedDecimal(last) + ",";
    assert r == "(" + Terminated(xs) + ")";
    assert r[|r| - 2..] == ",)";
    assert r[1..|r| - 1] == Terminated(xs);
    TerminatedSplit(xs);
    SignedAllRoundTrip(xs);
    var parts := SplitComma(r[1..|r| - 1]);
    assert parts[..|parts| - 1] == SignedAll(xs);
  }
}
