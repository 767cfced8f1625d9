/**
 * The identifier a board cell carries: the template literal `${row}-${col}`
 * renders the coordinate, and the move handler reads it back with
 * `id.split("-").map(Number)`.
 */
module CellId {

  /** The separator between the row and the column in a cell id */
  const Sep: char := '-'

  predicate IsDigit(c: char) {
    '0' <= c <= '9'
  }

  predicate IsDigits(s: string) {
    forall i :: 0 <= i < |s| ==> IsDigit(s[i])
  }

  /** The shape in which `${n}` renders a non-negative integer: decimal digits, no leading zero */
  predicate IsCanonical(s: string) {
    |s| > 0 && IsDigits(s) && (s[0] == '0' ==> |s| == 1)
  }

  function DigitValue(c: char): (d: nat)
    requires IsDigit(c)
    ensures d < 10
  {
    c as int - '0' as int
  }

  function DigitChar(d: nat): (c: char)
    requires d < 10
    ensures IsDigit(c) && DigitValue(c) == d
  {
    ('0' as int + d) as char
  }

  lemma DigitCharOfValue(c: char)
    requires IsDigit(c)
    ensures DigitChar(DigitValue(c)) == c
  {
  }

  /** `${n}` for a non-negative integer n: its decimal numeral */
  function NatToString(n: nat): (s: string)
    ensures IsCanonical(s)
    ensures s == "0" <==> n == 0
  {
    if n < 10 then [DigitChar(n)] else NatToString(n / 10) + [DigitChar(n % 10)]
  }

  /** `Number(s)` for a string of decimal digits: its value, read left to right; `Number("")` is 0 */
  function Number(s: string): (n: nat)
    requires IsDigits(s)
    ensures n == 0 <==> forall i :: 0 <= i < |s| ==> s[i] == '0'
  {
    if |s| == 0 then 0 else Number(s[..|s| - 1]) * 10 + DigitValue(s[|s| - 1])
  }

  /** A numeral whose first digit is not '0' stands for a positive number */
  lemma {:induction false} NumberPositive(s: string)
    requires IsDigits(s) && |s| > 0 && s[0] != '0'
    ensures Number(s) > 0
  {
    if |s| > 1 {
      NumberPositive(s[..|s| - 1]);
    }
  }

  /** Number reads back what NatToString renders */
  lemma {:induction false} NumberOfNatToString(n: nat)
    ensures Number(NatToString(n)) == n
  {
    if n >= 10 {
      var t := NatToString(n / 10);
      var s := t + [DigitChar(n % 10)];
      assert s[..|s| - 1] == t;
      NumberOfNatToString(n / 10);
    }
  }

  /** NatToString renders back every canonical numeral that Number reads */
  lemma {:induction false} NatToStringOfNumber(s: string)
    requires IsCanonical(s)
    ensures NatToString(Number(s)) == s
  {
    var t, c := s[..|s| - 1], s[|s| - 1];
    DigitCharOfValue(c);
    if |s| == 1 {
      assert Number(s) == DigitValue(c);
      assert s == [c];
    } else {
      assert t[0] == s[0] != '0';
      NumberPositive(t);
      NatToStringOfNumber(t);
      var n := Number(s);
      assert n == Number(t) * 10 + DigitValue(c);
      assert n / 10 == Number(t) && n % 10 == DigitValue(c);
      assert s == t + [c];
    }
  }

  /** `s.split(sep)`: the maximal runs of s between occurrences of sep, in order */
  function Split(s: string, sep: char): (parts: seq<string>)
    ensures |parts| > 0
    ensures forall i :: 0 <= i < |parts| ==> sep !in parts[i]
  {
    if |s| == 0 then [""]
    else
      var rest := Split(s[1..], sep);
      if s[0] == sep then [""] + rest
      else [[s[0]] + rest[0]] + rest[1..]
  }

  /** `parts.join(sep)`, the inverse of Split */
  function Join(parts: seq<string>, sep: char): (s: string)
    requires |parts| > 0
  {
    if |parts| == 1 then parts[0] else parts[0] + [sep] + Join(parts[1..], sep)
  }

  /** Joining the parts of s with the separator gives s back */
  lemma {:induction false} JoinSplit(s: string, sep: char)
    ensures Join(Split(s, sep), sep) == s
  {
    if |s| > 0 {
      var rest := Split(s[1..], sep);
      JoinSplit(s[1..], sep);
      if s[0] != sep && |rest| > 1 {
        assert rest == [rest[0]] + rest[1..];
        assert Join(rest, sep) == rest[0] + [sep] + Join(rest[1..], sep);
      }
      assert s == [s[0]] + s[1..];
    }
  }

  /** Splitting where the first part a holds no separator keeps a in front of the first part */
  lemma {:induction false} SplitPrefix(a: string, b: string, sep: char)
    requires sep !in a
    ensures Split(a + b, sep) == [a + Split(b, sep)[0]] + Split(b, sep)[1..]
  {
    if |a| > 0 {
      assert (a + b)[1..] == a[1..] + b;
      assert a[0] in a;
      SplitPrefix(a[1..], b, sep);
      assert [a[0]] + (a[1..] + Split(b, sep)[0]) == a + Split(b, sep)[0];
    } else {
      var p := Split(b, sep);
      assert a + b == b;
      assert a + p[0] == p[0];
      assert p == [p[0]] + p[1..];
    }
  }

  /** Splitting the join of separator-free parts gives the parts back */
  lemma {:induction false} SplitJoin(parts: seq<string>, sep: char)
    requires |parts| > 0
    requires forall i :: 0 <= i < |parts| ==> sep !in parts[i]
    ensures Split(Join(parts, sep), sep) == parts
  {
    if |parts| == 1 {
      SplitPrefix(parts[0], "", sep);
      assert parts[0] + "" == parts[0];
    } else {
      var tail := Join(parts[1..], sep);
      SplitJoin(parts[1..], sep);
      SplitPrefix(parts[0], [sep] + tail, sep);
      assert ([sep] + tail)[0] == sep && ([sep] + tail)[1..] == tail;
      assert Split([sep] + tail, sep) == [""] + Split(tail, sep);
      assert parts[0] + "" == parts[0];
      assert parts[0] + [sep] + tail == parts[0] + ([sep] + tail);
      assert parts == [parts[0]] + parts[1..];
    }
  }

  /** An id the move handler can read: at least a row and a column part, each a digit string */
  predicate IsWellFormed(id: string) {
    var parts := Split(id, Sep);
    |parts| >= 2 && forall i :: 0 <= i < |parts| ==> IsDigits(parts[i])
  }

  /** `id.split("-").map(Number)` */
  function ParseId(id: string): (coord: seq<nat>)
    requires IsWellFormed(id)
    ensures |coord| >= 2
  {
    var parts := Split(id, Sep);
    seq(|parts|, i requires 0 <= i < |parts| => Number(parts[i]))
  }

  /** `${rowIndx}-${cellIndx}` */
  function FormatId(row: nat, col: nat): (id: string)
    ensures Split(id, Sep) == [NatToString(row), NatToString(col)]
  {
    var r, c := NatToString(row), NatToString(col);
    assert Sep !in r && Sep !in c;
    assert Join([r, c], Sep) == r + [Sep] + c;
    SplitJoin([r, c], Sep);
    r + [Sep] + c
  }

  /** The rendered id of (row, col) is well formed and parses back to [row, col] */
  lemma ParseFormatId(row: nat, col: nat)
    ensures IsWellFormed(FormatId(row, col))
    ensures ParseId(FormatId(row, col)) == [row, col]
  {
    NumberOfNatToString(row);
    NumberOfNatToString(col);
  }

  /** Conversely, an id of exactly two canonical numerals is the rendering of the coordinate it parses to */
  lemma FormatParseId(id: string)
    requires |Split(id, Sep)| == 2
    requires IsCanonical(Split(id, Sep)[0]) && IsCanonical(Split(id, Sep)[1])
    ensures IsWellFormed(id)
    ensures FormatId(ParseId(id)[0], ParseId(id)[1]) == id
  {
    var parts := Split(id, Sep);
    NatToStringOfNumber(parts[0]);
    NatToStringOfNumber(parts[1]);
    JoinSplit(id, Sep);
    assert Join(parts, Sep) == parts[0] + [Sep] + parts[1];
  }
}
