/** Octal header fields of the bigtar format: the host tool's number parser and the writer's padded digits. */
module OctalFields {
  import opened Bytes
  import opened ByteSearch

  predicate Space(b: byte) { b == 32 || 9 <= b <= 13 }

  function StripLeft(s: seq<byte>): (r: seq<byte>)
    ensures |r| <= |s|
  {
    if |s| > 0 && Space(s[0]) then StripLeft(s[1..]) else s
  }

  function StripRight(s: seq<byte>): (r: seq<byte>)
    ensures |r| <= |s|
  {
    if |s| > 0 && Space(s[|s| - 1]) then StripRight(s[..|s| - 1]) else s
  }

  /** A field up to its first NUL. */
  function CutNul(s: seq<byte>): (r: seq<byte>)
    ensures |r| <= |s| && NulFree(r)
  {
    s[..IndexOf(s, 0, 0)]
  }

  predicate OctalDigit(b: byte) { '0' as int <= b <= '7' as int }

  /** Octal digits with single underscores between them; after says that a digit came just before. */
  function Digits(s: seq<byte>, value: nat, after: bool): Option<nat> {
    if |s| == 0 then (if after then Some(value) else None)
    else if OctalDigit(s[0]) then Digits(s[1..], 8 * value + (s[0] - '0' as int), true)
    else if s[0] == '_' as int && after then Digits(s[1..], value, false)
    else None
  }

  /** Digits after an optional 0o prefix, which one underscore may follow. */
  function Prefixed(s: seq<byte>): Option<nat> {
    if |s| >= 2 && s[0] == '0' as int && (s[1] == 'o' as int || s[1] == 'O' as int) then
      var rest := s[2..];
      Digits(if |rest| > 0 && rest[0] == '_' as int then rest[1..] else rest, 0, false)
    else Digits(s, 0, false)
  }

  /** The base-8 integer literals the parser takes: signs, prefixes and underscores included. */
  function Literal(s: seq<byte>): Option<int> {
    if |s| > 0 && s[0] == '-' as int then
      (match Prefixed(s[1..])
       case None => None
       case Some(v) => Some(0 - v))
    else if |s| > 0 && s[0] == '+' as int then Prefixed(s[1..])
    else Prefixed(s)
  }

  /** _octal: None stands for a field that is rejected. */
  function Octal(field: seq<byte>): Option<int> {
    var value := StripRight(StripLeft(CutNul(field)));
    if |value| == 0 then Some(0) else Literal(value)
  }

  // ---- writing ----

  function Pow8(n: nat): (p: nat)
    ensures p > 0
  {
    if n == 0 then 1 else 8 * Pow8(n - 1)
  }

  /** The low n octal digits of v, most significant first. */
  function OctalDigits(v: nat, n: nat): (s: seq<byte>)
    ensures |s| == n && forall k :: 0 <= k < n ==> OctalDigit(s[k])
  {
    if n == 0 then [] else OctalDigits(v / 8, n - 1) + ['0' as int + v % 8]
  }

  lemma {:induction false} DigitsAppend(s: seq<byte>, d: byte, value: nat, after: bool)
    requires (forall k :: 0 <= k < |s| ==> OctalDigit(s[k])) && OctalDigit(d)
    ensures Digits(s + [d], value, after).Some?
    ensures |s| > 0 ==> Digits(s, value, after).Some?
    ensures Digits(s + [d], value, after).value ==
            8 * (if |s| > 0 then Digits(s, value, after).value else value) + (d - '0' as int)
    decreases |s|
  {
    if |s| > 0 {
      assert (s + [d])[1..] == s[1..] + [d];
      DigitsAppend(s[1..], d, 8 * value + (s[0] - '0' as int), true);
    }
  }

  lemma {:induction false} DigitsOfOctal(v: nat, n: nat)
    requires n > 0 && v < Pow8(n)
    ensures Digits(OctalDigits(v, n), 0, false) == Some(v)
    decreases n
  {
    var s := OctalDigits(v / 8, n - 1);
    DigitsAppend(s, '0' as int + v % 8, 0, false);
    if n > 1 {
      DigitsOfOctal(v / 8, n - 1);
    }
  }

  lemma NoStrip(s: seq<byte>)
    requires |s| > 0 && !Space(s[0]) && !Space(s[|s| - 1])
    ensures StripRight(StripLeft(s)) == s
  {
  }

  lemma CutAtNul(s: seq<byte>, rest: seq<byte>)
    requires NulFree(s)
    ensures CutNul(s + [0] + rest) == s
  {
    var t := s + [0] + rest;
    IndexOfIs(t, 0, 0, |s|);
    assert t[..|s|] == s;
  }

  /** A zero-padded field reads back as the number written, whatever follows its NUL. */
  lemma FieldRoundTrip(v: nat, n: nat, rest: seq<byte>)
    requires n > 0 && v < Pow8(n)
    ensures Octal(OctalDigits(v, n) + [0] + rest) == Some(v)
  {
    var s := OctalDigits(v, n);
    assert forall k :: 0 <= k < n ==> OctalDigit(s[k]);
    CutAtNul(s, rest);
    NoStrip(s);
    DigitsOfOctal(v, n);
  }
}
