/** The few Python 2 string primitives the health check relies on, over
    `string` (a `seq<char>`): `str.partition`, `str.split` with a one-character
    separator, and `int()` on a decimal literal. */
module Text {

  import opened Optional

  /** Index of the first occurrence of `c` in `s`, or `|s|` when there is none. */
  function FirstIndex(s: string, c: char): (i: nat)
    ensures i <= |s|
    ensures i < |s| ==> s[i] == c
    decreases |s|
  {
    if s == [] then 0
    else if s[0] == c then 0
    else 1 + FirstIndex(s[1..], c)
  }

  /** No `c` occurs before `FirstIndex(s, c)`, which is `|s|` exactly when `c`
      does not occur at all. */
  lemma {:induction false} FirstIndexIsFirst(s: string, c: char)
    ensures c !in s[..FirstIndex(s, c)]
    ensures FirstIndex(s, c) == |s| <==> c !in s
    decreases |s|
  {
    if s != [] && s[0] != c {
      FirstIndexIsFirst(s[1..], c);
      var j := FirstIndex(s[1..], c);
      assert s[..1 + j] == [s[0]] + s[1..][..j];
      assert s == [s[0]] + s[1..];
    }
  }

  /** The triple `s.partition(c)` returns: the text before the first `c`,
      the separator itself (empty when `c` does not occur) and the rest. */
  datatype Parts = Parts(head: string, sep: string, tail: string)

  /** `s.partition(c)`: the three parts put back together give `s`, the head
      holds no separator, and the separator part is empty exactly when `c`
      does not occur in `s` (in which case the head is all of `s`). */
  function Partition(s: string, c: char): (p: Parts)
    ensures p.head + p.sep + p.tail == s
    ensures c !in p.head
    ensures p.sep == (if c in s then [c] else [])
    ensures c !in s ==> p.head == s && p.tail == []
  {
    FirstIndexIsFirst(s, c);
    var i := FirstIndex(s, c);
    if i == |s| then Parts(s, [], [])
    else
      assert s == s[..i] + [c] + s[i + 1..];
      Parts(s[..i], [c], s[i + 1..])
  }

  /** `c.join(parts)`, the inverse of `Split`. */
  function Join(parts: seq<string>, c: char): string
    decreases |parts|
  {
    if |parts| == 0 then []
    else if |parts| == 1 then parts[0]
    else parts[0] + [c] + Join(parts[1..], c)
  }

  /** `s.split(c)`: the fields between the separators, from left to right;
      there is always at least one. */
  function Split(s: string, c: char): (fields: seq<string>)
    ensures |fields| >= 1
    decreases |s|
  {
    var i := FirstIndex(s, c);
    if i == |s| then [s]
    else [s[..i]] + Split(s[i + 1..], c)
  }

  /** `s.split(c)` has one field more than `s` has separators. */
  lemma {:induction false} SplitFieldCount(s: string, c: char)
    ensures |Split(s, c)| == 1 + multiset(s)[c]
    decreases |s|
  {
    FirstIndexIsFirst(s, c);
    var i := FirstIndex(s, c);
    if i == |s| {
      assert multiset(s)[c] == 0;
    } else {
      SplitFieldCount(s[i + 1..], c);
      CutAtSeparator(s, c, i);
    }
  }

  /** No field of `s.split(c)` holds the separator. */
  lemma {:induction false} SplitFieldsFree(s: string, c: char)
    ensures forall i :: 0 <= i < |Split(s, c)| ==> c !in Split(s, c)[i]
    decreases |s|
  {
    FirstIndexIsFirst(s, c);
    var i := FirstIndex(s, c);
    if i < |s| {
      SplitFieldsFree(s[i + 1..], c);
      var rest := Split(s[i + 1..], c);
      var fields := Split(s, c);
      assert fields == [s[..i]] + rest;
      forall j | 0 <= j < |fields|
        ensures c !in fields[j]
      {
        if j > 0 {
          assert fields[j] == rest[j - 1];
        }
      }
    }
  }

  /** Joining the fields of a split gives back the original text. */
  lemma {:induction false} JoinSplit(s: string, c: char)
    ensures Join(Split(s, c), c) == s
    decreases |s|
  {
    FirstIndexIsFirst(s, c);
    var i := FirstIndex(s, c);
    if i < |s| {
      JoinSplit(s[i + 1..], c);
      CutAtSeparator(s, c, i);
      var fields := Split(s, c);
      assert fields == [s[..i]] + Split(s[i + 1..], c);
      assert fields[1..] == Split(s[i + 1..], c);
    }
  }

  /** The first field of `s.split(c)` is the head of `s.partition(c)`. */
  lemma FirstFieldIsPartitionHead(s: string, c: char)
    ensures Split(s, c)[0] == Partition(s, c).head
  {
  }

  /** Cutting `s` at its first separator, position `i`. */
  lemma CutAtSeparator(s: string, c: char, i: nat)
    requires i < |s| && s[i] == c && c !in s[..i]
    ensures s == s[..i] + [c] + s[i + 1..]
    ensures multiset(s)[c] == 1 + multiset(s[i + 1..])[c]
  {
  }

  /** A string contains `c` exactly when splitting it on `c` yields at least
      two fields, that is, when `fields[1]` exists. */
  lemma SecondFieldExists(s: string, c: char)
    ensures |Split(s, c)| >= 2 <==> c in s
  {
    SplitFieldCount(s, c);
    if c in s {
      assert multiset(s)[c] > 0;
    } else {
      assert multiset(s)[c] == 0;
    }
  }

  /** Index of a separator-free text followed by the separator. */
  lemma FirstIndexAfterField(a: string, c: char, b: string)
    requires c !in a
    ensures FirstIndex(a + [c] + b, c) == |a|
  {
    var s := a + [c] + b;
    FirstIndexIsFirst(s, c);
    assert s[|a|] == c;
    assert s[..|a|] == a;
  }

  /** A separator-free text followed by the separator splits off as the first field. */
  lemma SplitAfterField(head: string, c: char, tail: string)
    requires c !in head
    ensures Split(head + [c] + tail, c) == [head] + Split(tail, c)
  {
    var s := head + [c] + tail;
    FirstIndexAfterField(head, c, tail);
    assert s[..|head|] == head;
    assert s[|head| + 1..] == tail;
  }

  /** Splitting undoes joining: separator-free fields survive the round trip. */
  lemma {:induction false} SplitJoin(fields: seq<string>, c: char)
    requires |fields| >= 1
    requires forall i :: 0 <= i < |fields| ==> c !in fields[i]
    ensures Split(Join(fields, c), c) == fields
    decreases |fields|
  {
    if |fields| == 1 {
      FirstIndexIsFirst(fields[0], c);
    } else {
      var head, rest := fields[0], fields[1..];
      var joined := Join(fields, c);
      assert joined == head + [c] + Join(rest, c);
      assert forall i :: 0 <= i < |rest| ==> c !in rest[i] by {
        forall i | 0 <= i < |rest| ensures c !in rest[i] {
          assert rest[i] == fields[i + 1];
        }
      }
      SplitJoin(rest, c);
      SplitAfterField(head, c, Join(rest, c));
      assert Split(joined, c) == [head] + rest;
      assert fields == [head] + rest;
    }
  }

  predicate IsDigit(ch: char) {
    '0' <= ch <= '9'
  }

  /** A non-empty run of ASCII decimal digits. */
  predicate IsDigits(s: string) {
    |s| > 0 && forall i :: 0 <= i < |s| ==> IsDigit(s[i])
  }

  /** What `int()` accepts here: an optional sign followed by digits. */
  predicate IsIntLiteral(s: string) {
    || IsDigits(s)
    || (|s| > 1 && (s[0] == '-' || s[0] == '+') && IsDigits(s[1..]))
  }

  function DigitValue(ch: char): (d: nat)
    requires IsDigit(ch)
    ensures d < 10
  {
    (ch as int) - ('0' as int)
  }

  function DigitChar(d: nat): (ch: char)
    requires d < 10
    ensures IsDigit(ch) && DigitValue(ch) == d
  {
    (('0' as int) + d) as char
  }

  /** Value of a run of decimal digits, most significant first. */
  function DigitsValue(s: string): nat
    requires forall i :: 0 <= i < |s| ==> IsDigit(s[i])
    decreases |s|
  {
    if s == [] then 0
    else 10 * DigitsValue(s[..|s| - 1]) + DigitValue(s[|s| - 1])
  }

  /** `int(s)`: defined exactly on sign-and-digits literals, where the value
      has the sign the literal shows. */
  function ParseInt(s: string): (r: Option<int>)
    ensures r.Some? <==> IsIntLiteral(s)
    ensures r.Some? && s[0] == '-' ==> r.value <= 0
    ensures r.Some? && s[0] != '-' ==> r.value >= 0
  {
    if IsDigits(s) then Some(DigitsValue(s))
    else if |s| > 1 && s[0] == '-' && IsDigits(s[1..]) then Some(-(DigitsValue(s[1..]) as int))
    else if |s| > 1 && s[0] == '+' && IsDigits(s[1..]) then Some(DigitsValue(s[1..]))
    else None
  }

  /** `str(n)` for a natural number: shortest decimal digits, whose value is `n`. */
  function ShowNat(n: nat): (s: string)
    ensures IsDigits(s)
    ensures DigitsValue(s) == n
    ensures |s| > 1 ==> s[0] != '0'
    decreases n
  {
    if n < 10 then [DigitChar(n)]
    else
      var prefix := ShowNat(n / 10);
      var s := prefix + [DigitChar(n % 10)];
      assert s[..|s| - 1] == prefix;
      s
  }

  /** `str(n)`: a minus sign for negative numbers, then the digits. */
  function ShowInt(n: int): string {
    if n < 0 then "-" + ShowNat(-n) else ShowNat(n)
  }

  /** A leading zero does not change the value of a run of digits. */
  lemma {:induction false} LeadingZeroValue(s: string)
    requires IsDigits(s)
    ensures DigitsValue("0" + s) == DigitsValue(s)
    decreases |s|
  {
    var z := "0" + s;
    assert z[..|z| - 1] == "0" + s[..|s| - 1];
    if |s| > 1 {
      LeadingZeroValue(s[..|s| - 1]);
    } else {
      assert z[..|z| - 1] == "0";
    }
  }

  /** `int("0" + s) == int(s)` for a run of digits `s`. */
  lemma ParseLeadingZero(s: string)
    requires IsDigits(s)
    ensures ParseInt("0" + s) == ParseInt(s)
  {
    LeadingZeroValue(s);
  }

  /** `int("+" + s) == int(s)` and `int("-" + s) == -int(s)` for a run of digits `s`. */
  lemma ParseSigned(s: string)
    requires IsDigits(s)
    ensures ParseInt("+" + s) == ParseInt(s)
    ensures ParseInt("-" + s) == Some(-ParseInt(s).value)
  {
  }

  /** `int(str(n)) == n` for every integer. */
  lemma ParseShowInt(n: int)
    ensures ParseInt(ShowInt(n)) == Some(n)
  {
    if n < 0 {
      var s := ShowInt(n);
      assert s[1..] == ShowNat(-n);
      assert !IsDigits(s) by { assert !IsDigit(s[0]); }
    }
  }
}
