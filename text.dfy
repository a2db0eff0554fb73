/**
 * The string handling the route code relies on: splitting a polyline at `;`,
 * joining polylines with `;`, and writing a waypoint number in decimal.
 */
module Text {

  const Separator: char := ';'

  /**
   * `s.split(";")`: every separator ends a part, so the result always has at
   * least one part (the empty string splits into one empty part) and no part
   * contains a separator.
   */
  function Split(s: string): (parts: seq<string>)
    ensures |parts| >= 1
    ensures forall k :: 0 <= k < |parts| ==> Separator !in parts[k]
  {
    if |s| == 0 then [""]
    else
      var rest := Split(s[1..]);
      if s[0] == Separator then [""] + rest
      else [[s[0]] + rest[0]] + rest[1..]
  }

  /** `";".join(parts)`: the parts with one separator between neighbours. */
  function Join(parts: seq<string>): (s: string)
    ensures |parts| > 0 ==> parts[0] <= s
    ensures |parts| > 1 ==> |parts[0]| < |s| && s[|parts[0]|] == Separator
  {
    if |parts| == 0 then ""
    else if |parts| == 1 then parts[0]
    else parts[0] + [Separator] + Join(parts[1..])
  }

  /** The parts of each string in turn, all in one sequence. */
  function SplitAll(strings: seq<string>): seq<string>
  {
    if |strings| == 0 then [] else Split(strings[0]) + SplitAll(strings[1..])
  }

  /** Joining the parts of a split gives back the string. */
  lemma {:induction false} JoinSplit(s: string)
    ensures Join(Split(s)) == s
  {
    if |s| > 0 {
      var rest := Split(s[1..]);
      JoinSplit(s[1..]);
      if s[0] == Separator {
        assert ([""] + rest)[1..] == rest;
      } else if |rest| > 1 {
        var parts := [[s[0]] + rest[0]] + rest[1..];
        assert parts[1..] == rest[1..];
        assert s == [s[0]] + s[1..];
      } else {
        assert s == [s[0]] + s[1..];
      }
    }
  }

  /** A split at a separator placed between a and b is the split of a followed by the split of b. */
  lemma {:induction false} SplitAppend(a: string, b: string)
    ensures Split(a + [Separator] + b) == Split(a) + Split(b)
  {
    var s := a + [Separator] + b;
    if |a| == 0 {
      assert s[1..] == b;
    } else {
      assert s[1..] == a[1..] + [Separator] + b;
      SplitAppend(a[1..], b);
      var rest := Split(s[1..]);
      assert rest == Split(a[1..]) + Split(b);
      if a[0] != Separator {
        assert rest[0] == Split(a[1..])[0];
        assert rest[1..] == Split(a[1..])[1..] + Split(b);
      }
    }
  }

  /** The split of a join is the splits of the joined strings, one after the other. */
  lemma {:induction false} SplitJoinAll(strings: seq<string>)
    requires |strings| >= 1
    ensures Split(Join(strings)) == SplitAll(strings)
  {
    if |strings| == 1 {
      assert SplitAll(strings[1..]) == [];
    } else {
      SplitJoinAll(strings[1..]);
      SplitAppend(strings[0], Join(strings[1..]));
    }
  }

  /** A string without a separator splits into itself alone. */
  lemma {:induction false} SplitPlain(s: string)
    requires Separator !in s
    ensures Split(s) == [s]
  {
    if |s| > 0 {
      assert Separator !in s[1..] by {
        forall k | 0 <= k < |s[1..]| ensures s[1..][k] != Separator {
          assert s[1..][k] == s[k + 1];
        }
      }
      SplitPlain(s[1..]);
      assert s == [s[0]] + s[1..];
    }
  }

  /** Splitting a join of separator-free parts gives back the parts. */
  lemma {:induction false} SplitJoin(parts: seq<string>)
    requires |parts| >= 1
    requires forall k :: 0 <= k < |parts| ==> Separator !in parts[k]
    ensures Split(Join(parts)) == parts
  {
    SplitJoinAll(parts);
    SplitAllPlain(parts);
  }

  lemma {:induction false} SplitAllPlain(parts: seq<string>)
    requires forall k :: 0 <= k < |parts| ==> Separator !in parts[k]
    ensures SplitAll(parts) == parts
  {
    if |parts| > 0 {
      SplitPlain(parts[0]);
      SplitAllPlain(parts[1..]);
      assert parts == [parts[0]] + parts[1..];
    }
  }

  /** Joining non-empty strings gives the empty string exactly when there are none. */
  lemma {:induction false} JoinEmpty(strings: seq<string>)
    requires forall k :: 0 <= k < |strings| ==> strings[k] != ""
    ensures Join(strings) == "" <==> |strings| == 0
  {
    if |strings| > 1 {
      assert |Join(strings)| >= |strings[0]| + 1;
    }
  }

  function DigitChar(d: nat): (c: char)
    requires d < 10
    ensures '0' <= c <= '9'
  {
    (48 + d) as char
  }

  predicate IsDecimal(s: string)
  {
    |s| >= 1 && forall k :: 0 <= k < |s| ==> '0' <= s[k] <= '9'
  }

  /** `str(n)` for a natural number: its decimal digits, most significant first. */
  function NatToDecimal(n: nat): (s: string)
    ensures IsDecimal(s)
    ensures s[0] != '0' || s == "0"
    decreases n
  {
    if n < 10 then [DigitChar(n)] else NatToDecimal(n / 10) + [DigitChar(n % 10)]
  }

  /** The value of a string of decimal digits. */
  function DecimalToNat(s: string): nat
    requires forall k :: 0 <= k < |s| ==> '0' <= s[k] <= '9'
  {
    if |s| == 0 then 0
    else 10 * DecimalToNat(s[..|s| - 1]) + (s[|s| - 1] as int - 48)
  }

  /** Reading back the decimal form of n gives n. */
  lemma {:induction false} DecimalRoundTrip(n: nat)
    ensures DecimalToNat(NatToDecimal(n)) == n
    decreases n
  {
    if n >= 10 {
      var s := NatToDecimal(n);
      DecimalRoundTrip(n / 10);
      assert s[..|s| - 1] == NatToDecimal(n / 10);
    }
  }

  /** Different numbers have different decimal forms. */
  lemma NatToDecimalInjective(m: nat, n: nat)
    requires NatToDecimal(m) == NatToDecimal(n)
    ensures m == n
  {
    DecimalRoundTrip(m);
    DecimalRoundTrip(n);
  }
}
