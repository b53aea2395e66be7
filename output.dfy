/** The text of one line of the output file: the decimal renderings of a
    row's pId, finish time, waiting time and turnaround, each as
    Long.toString writes it, separated by single spaces.  The reading side
    (split on spaces, read each field as a decimal) is the partner that
    shows no information is lost. */
module OutputLine {
  import opened Processes

  datatype Option<T> = None | Some(value: T)

  /** The four numbers of an output line, in line order: pId, finish time,
      waiting time, turnaround. */
  datatype Row = Row(pId: int, finish: int, wait: int, tat: int)

  function RowOf(r: Proc): Row
  {
    Row(r.pId, r.finishTime, r.waitTime, r.turnArndTime)
  }

  predicate IsDigit(c: char)
  {
    '0' <= c <= '9'
  }

  predicate AllDigits(s: string)
  {
    forall i :: 0 <= i < |s| ==> IsDigit(s[i])
  }

  function DigitChar(d: nat): (c: char)
    requires d < 10
    ensures IsDigit(c) && c as int - '0' as int == d
  {
    ('0' as int + d) as char
  }

  /** The decimal digits of n, most significant first: a single "0" for
      zero, and never a leading zero otherwise. */
  function Digits(n: nat): (s: string)
    ensures |s| > 0 && AllDigits(s)
    ensures s[0] == '0' <==> n == 0
    ensures n == 0 ==> s == "0"
  {
    if n < 10 then [DigitChar(n)] else Digits(n / 10) + [DigitChar(n % 10)]
  }

  /** Long.toString: a minus sign before the digits of a negative value. */
  function LongToString(n: int): string
  {
    if n < 0 then "-" + Digits(-n) else Digits(n)
  }

  /** The value of a run of decimal digits. */
  function DigitsValue(s: string): nat
    requires AllDigits(s)
  {
    if s == [] then 0
    else
      assert IsDigit(s[|s| - 1]);
      DigitsValue(s[..|s| - 1]) * 10 + (s[|s| - 1] as int - '0' as int)
  }

  /** A decimal field read back: optional minus sign, then at least one
      digit; anything else is not a number. */
  function ReadLong(s: string): Option<int>
  {
    if |s| > 1 && s[0] == '-' && AllDigits(s[1..]) then Some(-(DigitsValue(s[1..]) as int))
    else if |s| > 0 && AllDigits(s) then Some(DigitsValue(s))
    else None
  }

  /** The fields of a line between single spaces; a line without a space
      is one field. */
  function Fields(s: string): (f: seq<string>)
    ensures |f| > 0
  {
    if s == [] then [""]
    else
      var rest := Fields(s[1..]);
      if s[0] == ' ' then [""] + rest else [[s[0]] + rest[0]] + rest[1..]
  }

  /** The line saveOutputFile writes for a row. */
  function LineOf(r: Proc): string
  {
    LongToString(r.pId) + " " + LongToString(r.finishTime) + " " +
    LongToString(r.waitTime) + " " + LongToString(r.turnArndTime)
  }

  /** A line read back: exactly four fields, each a number. */
  function ParseLine(s: string): Option<Row>
  {
    var f := Fields(s);
    if |f| != 4 then None
    else match (ReadLong(f[0]), ReadLong(f[1]), ReadLong(f[2]), ReadLong(f[3]))
      case (Some(p), Some(c), Some(w), Some(t)) => Some(Row(p, c, w, t))
      case _ => None
  }

  /** Reading the digits of n gives n back. */
  lemma {:induction false} DigitsRoundTrip(n: nat)
    ensures DigitsValue(Digits(n)) == n
    decreases n
  {
    if n >= 10 {
      var d := Digits(n / 10);
      var s := d + [DigitChar(n % 10)];
      assert s[..|s| - 1] == d;
      DigitsRoundTrip(n / 10);
    }
  }

  /** Reading what Long.toString writes gives the value back. */
  lemma LongRoundTrip(n: int)
    ensures ReadLong(LongToString(n)) == Some(n)
  {
    if n < 0 {
      DigitsRoundTrip(-n);
      assert LongToString(n)[1..] == Digits(-n);
    } else {
      DigitsRoundTrip(n);
    }
  }

  predicate NoSpaces(x: string)
  {
    forall i :: 0 <= i < |x| ==> x[i] != ' '
  }

  /** A rendered number holds no space. */
  lemma NoSpace(n: int)
    ensures NoSpaces(LongToString(n))
  {
    if n < 0 {
      assert forall i :: 1 <= i < |LongToString(n)| ==> LongToString(n)[i] == Digits(-n)[i - 1];
    }
  }

  /** Fields joined by single spaces, left to right. */
  function Joined(fs: seq<string>): string
  {
    if |fs| <= 1 then (if fs == [] then "" else fs[0])
    else Joined(fs[..|fs| - 1]) + " " + fs[|fs| - 1]
  }

  /** Appending a space and a space-free field to a line adds that field. */
  lemma {:induction false} FieldsSnoc(x: string, y: string)
    requires NoSpaces(y)
    ensures Fields(x + " " + y) == Fields(x) + [y]
    decreases |x|
  {
    if x == [] {
      assert x + " " + y == [' '] + y;
      FieldsSingle(y);
    } else {
      assert (x + " " + y)[1..] == x[1..] + " " + y;
      FieldsSnoc(x[1..], y);
    }
  }

  /** A string without spaces is a single field. */
  lemma {:induction false} FieldsSingle(x: string)
    requires NoSpaces(x)
    ensures Fields(x) == [x]
    decreases |x|
  {
    if x != [] {
      FieldsSingle(x[1..]);
      assert [x[0]] + x[1..] == x;
    }
  }

  /** Space-free fields joined by single spaces split back into the same
      fields. */
  lemma {:induction false} FieldsJoined(fs: seq<string>)
    requires |fs| > 0 && forall k :: 0 <= k < |fs| ==> NoSpaces(fs[k])
    ensures Fields(Joined(fs)) == fs
    decreases |fs|
  {
    if |fs| == 1 {
      FieldsSingle(fs[0]);
    } else {
      var init := fs[..|fs| - 1];
      FieldsJoined(init);
      FieldsSnoc(Joined(init), fs[|fs| - 1]);
      assert init + [fs[|fs| - 1]] == fs;
    }
  }

  /** The output line of a row splits into the four renderings. */
  lemma LineFields(r: Proc)
    ensures Fields(LineOf(r)) ==
      [LongToString(r.pId), LongToString(r.finishTime), LongToString(r.waitTime), LongToString(r.turnArndTime)]
  {
    var fs := [LongToString(r.pId), LongToString(r.finishTime), LongToString(r.waitTime), LongToString(r.turnArndTime)];
    NoSpace(r.pId);
    NoSpace(r.finishTime);
    NoSpace(r.waitTime);
    NoSpace(r.turnArndTime);
    assert fs[..3][..2] == fs[..2] && fs[..2][..1] == [fs[0]];
    assert Joined(fs[..2]) == fs[0] + " " + fs[1];
    assert Joined(fs[..3]) == fs[0] + " " + fs[1] + " " + fs[2];
    FieldsJoined(fs);
  }

  /** Each output line reads back as exactly the row's pId, finish time,
      waiting time and turnaround, in that order. */
  lemma LineRoundTrip(r: Proc)
    ensures ParseLine(LineOf(r)) == Some(RowOf(r))
  {
    LineFields(r);
    LongRoundTrip(r.pId);
    LongRoundTrip(r.finishTime);
    LongRoundTrip(r.waitTime);
    LongRoundTrip(r.turnArndTime);
  }

  /** Two rows with the same output line agree on all four numbers. */
  lemma LineInjective(r: Proc, r': Proc)
    requires LineOf(r) == LineOf(r')
    ensures RowOf(r) == RowOf(r')
  {
    LineRoundTrip(r);
    LineRoundTrip(r');
  }
}
