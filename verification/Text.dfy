/** Splitting, joining and trimming of text, as the dump scanner uses them. */
module Text {
  import opened Basics

  /** White space as a regular expression's `\s` and `trim` see it. */
  predicate IsSpace(c: char) {
    || 9 as char <= c <= 13 as char || c == ' ' || c == 0xA0 as char || c == 0x1680 as char
    || 0x2000 as char <= c <= 0x200A as char || c == 0x2028 as char || c == 0x2029 as char
    || c == 0x202F as char || c == 0x205F as char || c == 0x3000 as char || c == 0xFEFF as char
  }

  predicate IsDigit(c: char) {
    '0' <= c <= '9'
  }

  predicate IsHex(c: char) {
    '0' <= c <= '9' || 'a' <= c <= 'f'
  }

  predicate IsHexOf(s: string, length: nat) {
    |s| == length && forall i :: 0 <= i < |s| ==> IsHex(s[i])
  }

  predicate AllDigits(s: string) {
    s != [] && forall i :: 0 <= i < |s| ==> IsDigit(s[i])
  }

  function DigitValue(c: char): nat {
    if IsDigit(c) then c as int - '0' as int else 0
  }

  /** The number a string of digits writes. */
  function ParseNat(s: string): nat {
    if s == [] then 0 else ParseNat(s[..|s| - 1]) * 10 + DigitValue(s[|s| - 1])
  }

  function LowerChar(c: char): char {
    if 'A' <= c <= 'Z' then (c as int + 32) as char else c
  }

  function Lower(s: string): string {
    seq(|s|, i requires 0 <= i < |s| => LowerChar(s[i]))
  }

  function TrimStart(s: string): string {
    if s != [] && IsSpace(s[0]) then TrimStart(s[1..]) else s
  }

  function TrimEnd(s: string): string {
    if s != [] && IsSpace(s[|s| - 1]) then TrimEnd(s[..|s| - 1]) else s
  }

  function Trim(s: string): string {
    TrimEnd(TrimStart(s))
  }

  /** What stands before the first separator, and what after it, can be told from the text. */
  lemma FirstSeparator(a: string, x: string, b: string, y: string, c: char)
    requires a + [c] + x == b + [c] + y && c !in a && c !in b
    ensures a == b && x == y
  {
    var s := a + [c] + x;
    assert s[|a|] == c && s[|b|] == c;
    assert forall k :: 0 <= k < |a| ==> s[k] == a[k] && a[k] in a;
    assert forall k :: 0 <= k < |b| ==> s[k] == b[k] && b[k] in b;
    assert a == s[..|a|] && b == s[..|b|] && x == s[|a| + 1..] && y == s[|b| + 1..];
  }

  /** Where `c` first occurs, or the length of `s`. */
  function Find(s: string, c: char): (k: nat)
    ensures k <= |s| && c !in s[..k] && (k < |s| ==> s[k] == c)
  {
    if s == [] then 0 else if s[0] == c then 0 else
      var k := Find(s[1..], c);
      assert s[..k + 1] == [s[0]] + s[1..][..k];
      k + 1
  }

  lemma FindIs(s: string, c: char, k: nat)
    requires k <= |s| && c !in s[..k] && (k < |s| ==> s[k] == c)
    ensures Find(s, c) == k
  {
    var f := Find(s, c);
    assert forall i :: 0 <= i < k ==> s[..k][i] == s[i];
    assert forall i :: 0 <= i < f ==> s[..f][i] == s[i];
  }

  lemma FindAtMost(s: string, c: char, k: nat)
    requires k < |s| && s[k] == c
    ensures Find(s, c) <= k
  {
    assert forall i :: 0 <= i < Find(s, c) ==> s[..Find(s, c)][i] == s[i];
  }

  function Split(s: string, c: char): (parts: seq<string>)
    ensures parts != []
    decreases |s|
  {
    var k := Find(s, c);
    if k == |s| then [s] else [s[..k]] + Split(s[k + 1..], c)
  }

  function Join(parts: seq<string>, separator: string): string {
    if parts == [] then "" else if |parts| == 1 then parts[0] else parts[0] + separator + Join(parts[1..], separator)
  }

  lemma SplitStep(first: string, rest: string, c: char)
    requires c !in first
    ensures Split(first + [c] + rest, c) == [first] + Split(rest, c)
  {
    var s := first + [c] + rest;
    assert s[..|first|] == first && s[|first|] == c && s[|first| + 1..] == rest;
    FindIs(s, c, |first|);
  }

  lemma SplitOne(part: string, c: char)
    requires c !in part
    ensures Split(part, c) == [part]
  {
    FindIs(part, c, |part|);
  }

  /** One more character, not the separator, at the end of a text goes to its last part. */
  lemma {:induction false} SplitMore(s: string, c: char, more: char)
    requires more != c
    ensures Split(s + [more], c) == Split(s, c)[..|Split(s, c)| - 1] + [Split(s, c)[|Split(s, c)| - 1] + [more]]
    decreases |s|
  {
    hide Split, Find;
    var k := Find(s, c);
    if k == |s| {
      assert s[..k] == s;
      SplitOne(s, c);
      SplitOne(s + [more], c);
    } else {
      var first, rest := s[..k], s[k + 1..];
      assert s == first + [c] + rest && s + [more] == first + [c] + (rest + [more]);
      SplitStep(first, rest, c);
      SplitStep(first, rest + [more], c);
      SplitMore(rest, c, more);
    }
  }

  /** Splitting undoes joining when no part holds the separator. */
  lemma {:induction false} SplitJoin(parts: seq<string>, c: char)
    requires parts != [] && forall p :: p in parts ==> c !in p
    ensures Split(Join(parts, [c]), c) == parts
  {
    assert parts[0] in parts && parts[0][..|parts[0]|] == parts[0];
    if |parts| == 1 {
      FindIs(parts[0], c, |parts[0]|);
    } else {
      SplitJoin(parts[1..], c);
      assert Join(parts, [c]) == parts[0] + [c] + Join(parts[1..], [c]);
      hide Split, Join, Find;
      SplitStep(parts[0], Join(parts[1..], [c]), c);
      assert [parts[0]] + parts[1..] == parts;
    }
  }

  /** A word has no white space at either end. */
  ghost predicate IsTrimmed(s: string) {
    s != [] && !IsSpace(s[0]) && !IsSpace(s[|s| - 1])
  }

  lemma TrimOfPadded(s: string)
    requires IsTrimmed(s)
    ensures Trim(s) == s && Trim(" " + s) == s
  {
    assert (" " + s)[1..] == s;
    assert TrimStart(" " + s) == TrimStart(s) == s;
  }

  function IndexOf(parts: seq<string>, want: string): Option<nat> {
    if parts == [] then None
    else if parts[0] == want then Some(0)
    else
      var k :- IndexOf(parts[1..], want);
      Some(k + 1)
  }

  lemma {:induction false} IndexOfUnique(parts: seq<string>, want: string, k: nat)
    requires k < |parts| && parts[k] == want && forall i :: 0 <= i < k ==> parts[i] != want
    ensures IndexOf(parts, want) == Some(k)
  {
    if k > 0 {
      IndexOfUnique(parts[1..], want, k - 1);
    }
  }
}
