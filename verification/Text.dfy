/** Splitting of strings, and hexadecimal digits. */
module Text {
  import opened Common

  /** The part up to the first `sep`, and what follows it if it occurs: `splitn(2, sep)`. */
  function Cut(s: string, sep: char): (r: (string, Option<string>))
    ensures sep !in r.0
    ensures s == r.0 + if r.1.Some? then [sep] + r.1.value else []
  {
    if s == [] then ([], None)
    else if s[0] == sep then ([], Some(s[1..]))
    else
      var (head, rest) := Cut(s[1..], sep);
      ([s[0]] + head, rest)
  }

  lemma {:induction false} CutWhole(s: string, sep: char)
    requires sep !in s
    ensures Cut(s, sep) == (s, None)
  {
    if s != [] {
      assert forall i :: 0 <= i < |s| - 1 ==> s[1..][i] in s;
      CutWhole(s[1..], sep);
      assert s == [s[0]] + s[1..];
    }
  }

  lemma {:induction false} CutJoined(head: string, sep: char, rest: string)
    requires sep !in head
    ensures Cut(head + [sep] + rest, sep) == (head, Some(rest))
  {
    var s := head + [sep] + rest;
    if head == [] {
      assert s[1..] == rest;
    } else {
      assert forall i :: 0 <= i < |head| - 1 ==> head[1..][i] in head;
      CutJoined(head[1..], sep, rest);
      assert s[1..] == head[1..] + [sep] + rest;
      assert head == [head[0]] + head[1..];
    }
  }

  /** `split(sep)` */
  function Split(s: string, sep: char): (parts: seq<string>)
    ensures |parts| > 0
    ensures forall i :: 0 <= i < |parts| ==> sep !in parts[i]
    decreases |s|
  {
    var (head, rest) := Cut(s, sep);
    match rest
    case None => [head]
    case Some(tail) => [head] + Split(tail, sep)
  }

  predicate IsLower(c: char) { 'a' <= c <= 'z' }

  predicate IsUpper(c: char) { 'A' <= c <= 'Z' }

  predicate IsDecimal(c: char) { '0' <= c <= '9' }

  predicate IsHexDigit(c: char) {
    IsDecimal(c) || 'a' <= c <= 'f' || 'A' <= c <= 'F'
  }

  predicate AllHex(s: string) {
    forall i :: 0 <= i < |s| ==> IsHexDigit(s[i])
  }

  function HexValue(c: char): (v: nat)
    requires IsHexDigit(c)
    ensures v < 16
  {
    if IsDecimal(c) then c as int - '0' as int
    else if 'a' <= c <= 'f' then c as int - 'a' as int + 10
    else c as int - 'A' as int + 10
  }

  function LowerHex(c: char): (l: char)
    requires IsHexDigit(c)
    ensures IsHexDigit(l) && !('A' <= l <= 'F')
  {
    if 'A' <= c <= 'F' then (c as int - 'A' as int + 'a' as int) as char else c
  }

  function UpperHex(c: char): (u: char)
    requires IsHexDigit(c)
    ensures IsHexDigit(u) && LowerHex(u) == LowerHex(c)
  {
    if 'a' <= c <= 'f' then (c as int - 'a' as int + 'A' as int) as char else c
  }

  /** The digits stand for 0 to 15 in the usual order, the letters in either case. */
  lemma HexDigits(c: char)
    requires IsHexDigit(c)
    ensures HexValue(LowerHex(c)) == HexValue(UpperHex(c)) == HexValue(c)
    ensures LowerHex(c) as int == if HexValue(c) < 10 then '0' as int + HexValue(c) else 'a' as int + (HexValue(c) - 10)
    ensures UpperHex(c) as int == if HexValue(c) < 10 then '0' as int + HexValue(c) else 'A' as int + (HexValue(c) - 10)
  {
  }
}
