/**
 * The name of the file a node's checkpoint goes to: "Dedekind<order>-State
 * <rank>of<nodes>.ser" in the directory "states", the numbers written in
 * decimal. Reading the three numbers back out of a name shows that
 * different computations never share a file.
 */
module StateFiles {
  import opened Wrappers

  predicate IsDigit(c: char)
  {
    '0' <= c <= '9'
  }

  function Digit(d: nat): (c: char)
    requires d < 10
    ensures IsDigit(c)
  {
    (('0' as int) + d) as char
  }

  function DigitValue(c: char): (d: nat)
    requires IsDigit(c)
    ensures d < 10
  {
    (c as int) - ('0' as int)
  }

  predicate AllDigits(s: string)
  {
    forall i :: 0 <= i < |s| ==> IsDigit(s[i])
  }

  /** The decimal digits of `n`, most significant first, without leading zeros. */
  function NatToString(n: nat): (s: string)
    ensures s != [] && AllDigits(s)
    decreases n
  {
    if n < 10 then [Digit(n)] else NatToString(n / 10) + [Digit(n % 10)]
  }

  /** Java's decimal rendering of an int: a minus sign before the digits of a negative number. */
  function IntToString(x: int): (s: string)
    ensures s != []
  {
    if x < 0 then "-" + NatToString(-x) else NatToString(x)
  }

  function FilePath(order: int, rank: int, nodes: int): string
  {
    "states/Dedekind" + (IntToString(order) + ("-State" + (IntToString(rank) + ("of" + (IntToString(nodes) + ".ser")))))
  }

  /** The value of a run of digits read after the value `acc`. */
  function Value(acc: nat, ds: string): nat
    requires AllDigits(ds)
    decreases |ds|
  {
    if ds == [] then acc else Value(acc * 10 + DigitValue(ds[0]), ds[1..])
  }

  /** Reads the longest run of digits at the front of `s`. */
  function ReadDigits(s: string, acc: nat): (r: (nat, string))
  {
    if s != [] && IsDigit(s[0]) then ReadDigits(s[1..], acc * 10 + DigitValue(s[0])) else (acc, s)
  }

  /** Reads a decimal number, possibly negative, from the front of `s`. */
  function ReadInt(s: string): Option<(int, string)>
  {
    if |s| >= 2 && s[0] == '-' && IsDigit(s[1]) then
      var r := ReadDigits(s[1..], 0);
      var v: int := 0 - (r.0 as int);
      Some((v, r.1))
    else if s != [] && IsDigit(s[0]) then
      var r := ReadDigits(s, 0);
      Some((r.0, r.1))
    else None
  }

  /** Removes `prefix` from the front of `s`, if it is there. */
  function Strip(prefix: string, s: string): Option<string>
  {
    if prefix <= s then Some(s[|prefix|..]) else None
  }

  /** Reads the order, rank and number of nodes back out of a checkpoint file name. */
  function ParseFilePath(p: string): Option<(int, int, int)>
  {
    match Strip("states/Dedekind", p)
    case None => None
    case Some(p1) => ParseOrder(p1)
  }

  /** The rest of a file name after the directory and "Dedekind". */
  function ParseOrder(p1: string): Option<(int, int, int)>
  {
    match ReadInt(p1)
    case None => None
    case Some((order, p2)) =>
      match Strip("-State", p2)
      case None => None
      case Some(p3) => ParseRank(order, p3)
  }

  /** The rest of a file name after "-State". */
  function ParseRank(order: int, p3: string): Option<(int, int, int)>
  {
    match ReadInt(p3)
    case None => None
    case Some((rank, p4)) =>
      match Strip("of", p4)
      case None => None
      case Some(p5) => ParseNodes(order, rank, p5)
  }

  /** The rest of a file name after "of". */
  function ParseNodes(order: int, rank: int, p5: string): Option<(int, int, int)>
  {
    match ReadInt(p5)
    case None => None
    case Some((nodes, p6)) =>
      if p6 == ".ser" then Some((order, rank, nodes)) else None
  }

  predicate StartsWithNonDigit(s: string)
  {
    s == [] || !IsDigit(s[0])
  }

  lemma {:induction false} ValueSnoc(acc: nat, ds: string, c: char)
    requires AllDigits(ds) && IsDigit(c)
    ensures AllDigits(ds + [c])
    ensures Value(acc, ds + [c]) == Value(acc, ds) * 10 + DigitValue(c)
    decreases |ds|
  {
    if ds != [] {
      assert (ds + [c])[1..] == ds[1..] + [c];
      ValueSnoc(acc * 10 + DigitValue(ds[0]), ds[1..], c);
    }
  }

  lemma {:induction false} ValueOfDigits(n: nat)
    ensures Value(0, NatToString(n)) == n
    decreases n
  {
    if n >= 10 {
      ValueOfDigits(n / 10);
      ValueSnoc(0, NatToString(n / 10), Digit(n % 10));
    }
  }

  lemma {:induction false} ReadDigitsRun(ds: string, rest: string, acc: nat)
    requires AllDigits(ds) && StartsWithNonDigit(rest)
    ensures ReadDigits(ds + rest, acc) == (Value(acc, ds), rest)
    decreases |ds|
  {
    if ds == [] {
      assert ds + rest == rest;
    } else {
      assert (ds + rest)[1..] == ds[1..] + rest;
      ReadDigitsRun(ds[1..], rest, acc * 10 + DigitValue(ds[0]));
    }
  }

  /** A number followed by something that is not a digit reads back as itself. */
  lemma ReadIntShown(x: int, rest: string)
    requires StartsWithNonDigit(rest)
    ensures ReadInt(IntToString(x) + rest) == Some((x, rest))
  {
    if x < 0 {
      var ds := NatToString(-x);
      assert IntToString(x) + rest == "-" + (ds + rest);
      assert ("-" + (ds + rest))[1..] == ds + rest;
      ReadDigitsRun(ds, rest, 0);
      ValueOfDigits(-x);
    } else {
      ReadDigitsRun(NatToString(x), rest, 0);
      ValueOfDigits(x);
    }
  }

  lemma StripFront(prefix: string, s: string)
    ensures Strip(prefix, prefix + s) == Some(s)
  {
    assert prefix <= prefix + s;
    assert (prefix + s)[|prefix|..] == s;
  }

  /** The three numbers can be read back from the file name. */
  lemma ParseFilePathInverts(order: int, rank: int, nodes: int)
    ensures ParseFilePath(FilePath(order, rank, nodes)) == Some((order, rank, nodes))
  {
    var tail := IntToString(order) + ("-State" + (IntToString(rank) + ("of" + (IntToString(nodes) + ".ser"))));
    StripFront("states/Dedekind", tail);
    ParseOrderShown(order, rank, nodes);
  }

  lemma ParseOrderShown(order: int, rank: int, nodes: int)
    ensures ParseOrder(IntToString(order) + ("-State" + (IntToString(rank) + ("of" + (IntToString(nodes) + ".ser")))))
      == Some((order, rank, nodes))
  {
    var tail := IntToString(rank) + ("of" + (IntToString(nodes) + ".ser"));
    ReadIntShown(order, "-State" + tail);
    StripFront("-State", tail);
    ParseRankShown(order, rank, nodes);
  }

  lemma ParseRankShown(order: int, rank: int, nodes: int)
    ensures ParseRank(order, IntToString(rank) + ("of" + (IntToString(nodes) + ".ser"))) == Some((order, rank, nodes))
  {
    var tail := IntToString(nodes) + ".ser";
    ReadIntShown(rank, "of" + tail);
    StripFront("of", tail);
    ReadIntShown(nodes, ".ser");
  }

  /** Different computations or nodes write different files. */
  lemma FilePathInjective(o1: int, r1: int, n1: int, o2: int, r2: int, n2: int)
    requires FilePath(o1, r1, n1) == FilePath(o2, r2, n2)
    ensures o1 == o2 && r1 == r2 && n1 == n2
  {
    ParseFilePathInverts(o1, r1, n1);
    ParseFilePathInverts(o2, r2, n2);
  }
}
