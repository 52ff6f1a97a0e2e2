/** The parts of .NET's string handling that the core relies on:
    `String.Split(char)`, its inverse `String.Join(char, ..)`, and lower-casing
    of a single character. */
module Strings {

  /** The number of occurrences of `c` in `s`. */
  function Count(s: string, c: char): (r: nat)
    ensures r <= |s|
    ensures c !in s <==> r == 0
  {
    if s == [] then 0 else (if s[0] == c then 1 else 0) + Count(s[1..], c)
  }

  /** `s.Split(sep)`: the pieces of `s` between separators, in order. Empty
      pieces are kept, so the result is never empty. */
  function Split(s: string, sep: char): (r: seq<string>)
    ensures |r| == Count(s, sep) + 1
    ensures forall i :: 0 <= i < |r| ==> sep !in r[i]
  {
    if s == [] then [""]
    else
      var rest := Split(s[1..], sep);
      if s[0] == sep then [""] + rest
      else [[s[0]] + rest[0]] + rest[1..]
  }

  /** `String.Join(sep, parts)`. */
  function Join(parts: seq<string>, sep: char): (r: string)
    ensures |parts| == 1 ==> r == parts[0]
    ensures parts != [] ==> |parts[0]| <= |r| && r[..|parts[0]|] == parts[0]
  {
    if parts == [] then ""
    else if |parts| == 1 then parts[0]
    else parts[0] + [sep] + Join(parts[1..], sep)
  }

  /** Joining the pieces with the separator gives back the split string. */
  lemma {:induction false} JoinSplit(s: string, sep: char)
    ensures Join(Split(s, sep), sep) == s
  {
    if s != [] {
      var rest := Split(s[1..], sep);
      JoinSplit(s[1..], sep);
      if s[0] == sep {
        assert ([""] + rest)[1..] == rest;
      } else if |rest| > 1 {
        assert ([[s[0]] + rest[0]] + rest[1..])[1..] == rest[1..];
      }
    }
  }

  /** Splitting a string with no separator in front of a tail: the prefix is
      glued onto the tail's first piece. */
  lemma {:induction false} SplitPrefix(a: string, b: string, sep: char)
    requires sep !in a
    ensures Split(a + b, sep) == [a + Split(b, sep)[0]] + Split(b, sep)[1..]
  {
    if a != [] {
      SplitPrefix(a[1..], b, sep);
      var rest := Split(a[1..] + b, sep);
      assert a[0] in a;
      assert (a + b)[0] == a[0] != sep;
      assert (a + b)[1..] == a[1..] + b;
      assert Split(a + b, sep) == [[a[0]] + rest[0]] + rest[1..];
      assert rest[0] == a[1..] + Split(b, sep)[0];
      assert rest[1..] == Split(b, sep)[1..];
      assert [a[0]] + rest[0] == a + Split(b, sep)[0];
    } else {
      assert a + b == b;
      assert a + Split(b, sep)[0] == Split(b, sep)[0];
    }
  }

  /** Splitting undoes joining, provided no piece contains the separator and
      there is at least one piece. */
  lemma {:induction false} SplitJoin(parts: seq<string>, sep: char)
    requires |parts| > 0
    requires forall i :: 0 <= i < |parts| ==> sep !in parts[i]
    ensures Split(Join(parts, sep), sep) == parts
  {
    if |parts| == 1 {
      SplitPrefix(parts[0], "", sep);
      assert parts[0] + "" == parts[0];
    } else {
      var tail := Join(parts[1..], sep);
      SplitJoin(parts[1..], sep);
      SplitPrefix(parts[0], [sep] + tail, sep);
      assert ([sep] + tail)[1..] == tail;
      assert Split([sep] + tail, sep) == [""] + parts[1..];
      assert parts[0] + "" == parts[0];
      assert parts[0] + ([sep] + tail) == parts[0] + [sep] + tail;
      assert parts == [parts[0]] + parts[1..];
    }
  }

  /** `Char.ToLower` restricted to ASCII: upper-case Latin letters map to their
      lower-case form and every other character is left alone. */
  function ToLower(c: char): (r: char)
    ensures 'A' <= c <= 'Z' ==> 'a' <= r <= 'z' && r as int - c as int == 32
    ensures !('A' <= c <= 'Z') ==> r == c
  {
    if 'A' <= c <= 'Z' then (c as int + 32) as char else c
  }
}
