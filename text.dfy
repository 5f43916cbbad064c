/** Bytes, ASCII text, and the handful of Python string operations the
    server, the client and the load tester rely on: `find`, `split`,
    `lower`, `strip`, `str(n)` and `int(s)`.  Text is one byte per
    character; every operation here works on plain sequences. */
module Text {

  newtype byte = b: int | 0 <= b < 256
  type Bytes = seq<byte>

  datatype Option<T> = None | Some(value: T)

  // ---------------------------------------------------------------------
  // Characters and bytes (one byte per character)
  // ---------------------------------------------------------------------

  function ByteOf(c: char): byte { ((c as int) % 256) as byte }

  function CharOf(b: byte): char { (b as int) as char }

  /** Characters that travel as exactly one byte. */
  predicate IsByteText(s: string) {
    forall i :: 0 <= i < |s| ==> (s[i] as int) < 256
  }

  /** `s.encode()` for text whose characters are single bytes. */
  function Encode(s: string): (r: Bytes)
    ensures |r| == |s|
    ensures forall i :: 0 <= i < |s| ==> r[i] == ByteOf(s[i])
  {
    seq(|s|, i requires 0 <= i < |s| => ByteOf(s[i]))
  }

  /** `b.decode()`: every byte becomes the character with the same code. */
  function Decode(b: Bytes): (s: string)
    ensures |s| == |b|
    ensures forall i :: 0 <= i < |b| ==> s[i] as int == b[i] as int
  {
    seq(|b|, i requires 0 <= i < |b| => CharOf(b[i]))
  }

  lemma EncodeDecode(b: Bytes)
    ensures Encode(Decode(b)) == b
  {
    assert forall i :: 0 <= i < |b| ==> Encode(Decode(b))[i] == b[i];
  }

  lemma DecodeEncode(s: string)
    requires IsByteText(s)
    ensures Decode(Encode(s)) == s
  {
    assert forall i :: 0 <= i < |s| ==> Decode(Encode(s))[i] == s[i];
  }

  // ---------------------------------------------------------------------
  // find and split
  // ---------------------------------------------------------------------

  /** `pat` occurs in `s` starting at index `i`. */
  predicate OccursAt<T(==)>(s: seq<T>, pat: seq<T>, i: int) {
    0 <= i && i + |pat| <= |s| && s[i..i + |pat|] == pat
  }

  predicate Contains<T(==)>(s: seq<T>, pat: seq<T>) {
    exists i | 0 <= i <= |s| - |pat| :: OccursAt(s, pat, i)
  }

  function FindFrom<T(==)>(s: seq<T>, pat: seq<T>, from: nat): (r: int)
    ensures r == -1 || (from <= r && OccursAt(s, pat, r))
    ensures r == -1 ==> forall i :: from <= i ==> !OccursAt(s, pat, i)
    ensures r != -1 ==> forall i :: from <= i < r ==> !OccursAt(s, pat, i)
    decreases |s| - from
  {
    if from + |pat| > |s| then -1
    else if s[from..from + |pat|] == pat then from
    else FindFrom(s, pat, from + 1)
  }

  /** Python's `s.find(pat)`: the lowest index where `pat` occurs, or -1. */
  function Find<T(==)>(s: seq<T>, pat: seq<T>): (r: int)
    ensures r == -1 <==> !Contains(s, pat)
    ensures r != -1 ==> OccursAt(s, pat, r) && forall i :: 0 <= i < r ==> !OccursAt(s, pat, i)
  {
    FindFrom(s, pat, 0)
  }

  /** Python's `s.split(sep)` for a non-empty separator: cut at every
      occurrence of `sep`, scanning left to right without overlaps. */
  function Split<T(==)>(s: seq<T>, sep: seq<T>): (r: seq<seq<T>>)
    requires |sep| > 0
    ensures |r| >= 1
    decreases |s|
  {
    var i := Find(s, sep);
    if i < 0 then [s] else [s[..i]] + Split(s[i + |sep|..], sep)
  }

  /** `split` cuts at the FIRST occurrence of the separator and splits what
      follows it the same way; with no occurrence it gives the input whole.
      This pins the pieces down even for a separator that overlaps itself. */
  lemma SplitAtFirst<T>(s: seq<T>, sep: seq<T>)
    requires |sep| > 0
    ensures !Contains(s, sep) ==> Split(s, sep) == [s]
    ensures Contains(s, sep) ==>
      var i := Find(s, sep);
      && Split(s, sep)[0] == s[..i]
      && Split(s, sep)[1..] == Split(s[i + |sep|..], sep)
  {
  }

  /** `sep.join(parts)`. */
  function Join<T>(parts: seq<seq<T>>, sep: seq<T>): seq<T>
    requires |parts| >= 1
  {
    if |parts| == 1 then parts[0] else parts[0] + sep + Join(parts[1..], sep)
  }

  /** Splitting loses nothing: joining the pieces gives back the input. */
  lemma {:induction false} JoinSplit<T>(s: seq<T>, sep: seq<T>)
    requires |sep| > 0
    ensures Join(Split(s, sep), sep) == s
    decreases |s|
  {
    var i := Find(s, sep);
    if i >= 0 {
      var tail := s[i + |sep|..];
      JoinSplit(tail, sep);
      JoinCons(s[..i], Split(tail, sep), sep);
      CutAt(s, sep, i);
    }
  }

  /** Three parts joined. */
  lemma JoinThree<T>(parts: seq<seq<T>>, sep: seq<T>)
    requires |parts| == 3
    ensures Join(parts, sep) == parts[0] + sep + parts[1] + sep + parts[2]
  {
    assert parts[1..][1..] == [parts[2]];
    assert Join(parts[1..], sep) == parts[1] + sep + parts[2];
  }

  /** Joining a first part onto the rest puts one separator between. */
  lemma JoinCons<T>(first: seq<T>, rest: seq<seq<T>>, sep: seq<T>)
    requires |rest| >= 1
    ensures Join([first] + rest, sep) == first + sep + Join(rest, sep)
  {
    assert ([first] + rest)[1..] == rest;
  }

  /** An occurrence of `sep` at `i` cuts `s` into what precedes it, `sep`
      and what follows it. */
  lemma CutAt<T>(s: seq<T>, sep: seq<T>, i: int)
    requires OccursAt(s, sep, i)
    ensures s == s[..i] + sep + s[i + |sep|..]
  {
    assert s == s[..i] + s[i..i + |sep|] + s[i + |sep|..];
  }

  /** A slice of `s` that ends before index `n` is also a slice of `s[..n]`. */
  lemma OccursInPrefix<T>(s: seq<T>, pat: seq<T>, n: nat, j: int)
    requires n <= |s| && OccursAt(s[..n], pat, j)
    ensures OccursAt(s, pat, j)
  {
    assert s[..n][j..j + |pat|] == s[j..j + |pat|];
  }

  /** No piece of a split contains the separator. */
  lemma {:induction false} SplitPiecesFree<T>(s: seq<T>, sep: seq<T>, k: nat)
    requires |sep| > 0 && k < |Split(s, sep)|
    ensures !Contains(Split(s, sep)[k], sep)
    decreases |s|
  {
    var i := Find(s, sep);
    if i >= 0 {
      var tail := s[i + |sep|..];
      assert Split(s, sep) == [s[..i]] + Split(tail, sep);
      if k == 0 {
        forall j | 0 <= j <= i - |sep| ensures !OccursAt(s[..i], sep, j) {
          if OccursAt(s[..i], sep, j) {
            OccursInPrefix(s, sep, i, j);
            assert false;
          }
        }
      } else {
        SplitPiecesFree(tail, sep, k - 1);
        assert Split(s, sep)[k] == Split(tail, sep)[k - 1];
      }
    }
  }

  /** Where the first element of `sep` is not at index `j`, `sep` does not start there. */
  lemma NotOccursAt<T>(s: seq<T>, sep: seq<T>, j: int)
    requires |sep| > 0 && 0 <= j < |s| && s[j] != sep[0]
    ensures !OccursAt(s, sep, j)
  {
    if j + |sep| <= |s| { assert s[j..j + |sep|][0] == s[j]; }
  }

  /** When `a` holds no first element of `sep`, the first cut is right
      after `a`. */
  lemma SplitAfter<T>(a: seq<T>, sep: seq<T>, b: seq<T>)
    requires |sep| > 0 && sep[0] !in a
    ensures Split(a + sep + b, sep) == [a] + Split(b, sep)
  {
    var s := a + sep + b;
    assert s[|a|..|a| + |sep|] == sep;
    assert OccursAt(s, sep, |a|);
    forall j | 0 <= j < |a| ensures !OccursAt(s, sep, j) {
      assert s[j] == a[j];
      NotOccursAt(s, sep, j);
    }
    var i := Find(s, sep);
    assert i == |a|;
    assert s[..i] == a;
    assert s[i + |sep|..] == b;
  }

  /** When `a` holds no first element of `sep`, it is not cut at all. */
  lemma SplitNone<T>(a: seq<T>, sep: seq<T>)
    requires |sep| > 0 && sep[0] !in a
    ensures Split(a, sep) == [a]
  {
    forall j | 0 <= j <= |a| - |sep| ensures !OccursAt(a, sep, j) {
      NotOccursAt(a, sep, j);
    }
    assert !Contains(a, sep);
  }

  /** Splitting on one character gives one piece more than there are
      occurrences of that character. */
  lemma {:induction false} SplitCount<T>(s: seq<T>, c: T)
    ensures |Split(s, [c])| == multiset(s)[c] + 1
    decreases |s|
  {
    var i := Find(s, [c]);
    if i < 0 {
      forall j | 0 <= j < |s| ensures s[j] != c {
        assert !OccursAt(s, [c], j);
        assert s[j..j + 1] == [s[j]];
      }
      assert c !in s;
    } else {
      var head, tail := s[..i], s[i + 1..];
      assert s[i..i + 1] == [c];
      assert s == head + [c] + tail;
      forall j | 0 <= j < i ensures head[j] != c {
        assert !OccursAt(s, [c], j);
        assert s[j..j + 1] == [s[j]];
      }
      assert c !in head;
      SplitCount(tail, c);
      assert multiset(s) == multiset(head) + multiset([c]) + multiset(tail);
    }
  }

  /** The pieces laid end to end (`b"".join(parts)`). */
  function Concat<T>(parts: seq<seq<T>>): seq<T> {
    if parts == [] then [] else parts[0] + Concat(parts[1..])
  }

  lemma {:induction false} ConcatAppend<T>(a: seq<seq<T>>, b: seq<seq<T>>)
    ensures Concat(a + b) == Concat(a) + Concat(b)
  {
    if a != [] {
      assert (a + b)[1..] == a[1..] + b;
      ConcatAppend(a[1..], b);
    } else {
      assert a + b == b;
    }
  }

  /** The first index at which `x` appears in `s`, or -1 (Python's
      `list.index`, which raises where this gives -1). */
  function IndexOf<T(==)>(s: seq<T>, x: T): (r: int)
    ensures r == -1 <==> x !in s
    ensures r != -1 ==> 0 <= r < |s| && s[r] == x && x !in s[..r]
  {
    if s == [] then -1
    else if s[0] == x then 0
    else var k := IndexOf(s[1..], x); if k == -1 then -1 else k + 1
  }

  /** Everything after the first `delim` in `s`, computed as
      `s[s.find(delim) + len(delim):]`.  When `delim` is missing, `find`
      gives -1 and the slice starts at `len(delim) - 1`. */
  function AfterFirst<T(==)>(s: seq<T>, delim: seq<T>): (r: seq<T>)
    requires |delim| > 0
    ensures Contains(s, delim) ==> s == s[..Find(s, delim)] + delim + r
    ensures Contains(s, delim) ==> !Contains(s[..Find(s, delim)], delim)
    ensures !Contains(s, delim) ==> r == s[if |delim| - 1 <= |s| then |delim| - 1 else |s|..]
  {
    var i := Find(s, delim);
    var start := i + |delim|;
    if start <= |s| then
      (if i >= 0 then
         assert s[i..i + |delim|] == delim;
         assert s == s[..i] + s[i..start] + s[start..];
         FindPrefixFree(s, delim, i);
         s[start..]
       else s[start..])
    else s[|s|..]
  }

  /** What follows a prefix `a + b` of `s`, seen from the end of `a`. */
  lemma SliceAfterPrefix<T>(a: seq<T>, b: seq<T>, s: seq<T>)
    requires a + b <= s
    ensures s[|a|..] == b + s[|a| + |b|..]
  {
    assert s == (a + b) + s[|a| + |b|..];
  }

  /** Reading `b` after `a` off the front of a stream: what `s` holds after
      `a`, then `z`, is `b` followed by what `s` holds after `a + b`, then `z`. */
  lemma SliceChain<T>(a: seq<T>, b: seq<T>, s: seq<T>, x: seq<T>, y: seq<T>, z: seq<T>)
    requires a + b <= s && x == b + y && y == s[|a| + |b|..] + z
    ensures x == s[|a|..] + z
  {
    SliceAfterPrefix(a, b, s);
    AppendAssoc(b, s[|a| + |b|..], z);
  }

  /** Storing under one key adds that key, holds the new value there and
      leaves every other entry as it was. */
  lemma Store<K, V>(m: map<K, V>, k: K, v: V)
    ensures m[k := v].Keys == m.Keys + {k}
    ensures m[k := v][k] == v
    ensures forall q :: q in m && q != k ==> m[k := v][q] == m[q]
  {
  }

  lemma AppendAssoc<T>(a: seq<T>, b: seq<T>, c: seq<T>)
    ensures a + (b + c) == (a + b) + c
  {
  }

  /** Appending keeps an occurrence where it was. */
  lemma ContainsExtension<T>(s: seq<T>, pat: seq<T>, more: seq<T>)
    requires Contains(s, pat)
    ensures Contains(s + more, pat)
  {
    var i :| 0 <= i <= |s| - |pat| && OccursAt(s, pat, i);
    assert (s + more)[i..i + |pat|] == s[i..i + |pat|];
    assert OccursAt(s + more, pat, i);
  }

  /** Appending cannot move the first occurrence. */
  lemma FindExtension<T>(s: seq<T>, pat: seq<T>, more: seq<T>)
    requires Contains(s, pat)
    ensures Find(s + more, pat) == Find(s, pat)
  {
    var i, t := Find(s, pat), s + more;
    assert t[i..i + |pat|] == s[i..i + |pat|];
    assert OccursAt(t, pat, i);
    forall j | 0 <= j < i ensures !OccursAt(t, pat, j) {
      assert !OccursAt(s, pat, j);
      assert t[j..j + |pat|] == s[j..j + |pat|];
    }
  }

  /** When `a` holds no delimiter but `a + b` does, the first one ends
      inside `b`, so less than `b` follows it. */
  lemma AfterFirstEndsInside<T>(a: seq<T>, b: seq<T>, delim: seq<T>)
    requires |delim| > 0 && !Contains(a, delim) && Contains(a + b, delim)
    ensures |AfterFirst(a + b, delim)| < |b|
  {
    var t := a + b;
    var i := Find(t, delim);
    if i + |delim| <= |a| {
      assert t[i..i + |delim|] == a[i..i + |delim|];
      assert OccursAt(a, delim, i);
      assert false;
    }
    assert t == t[..i] + delim + AfterFirst(t, delim);
  }

  /** Bytes appended after the first delimiter extend what follows it. */
  lemma AfterFirstExtension<T>(s: seq<T>, delim: seq<T>, more: seq<T>)
    requires |delim| > 0 && Contains(s, delim)
    ensures AfterFirst(s + more, delim) == AfterFirst(s, delim) + more
  {
    var i := Find(s, delim);
    FindExtension(s, delim, more);
    ContainsExtension(s, delim, more);
    var t := s + more;
    var a, b := AfterFirst(s, delim), AfterFirst(t, delim);
    assert b == t[i + |delim|..] by {
      assert t == t[..i] + delim + b;
      assert |b| == |t| - i - |delim|;
    }
    assert a == s[i + |delim|..] by {
      assert s == s[..i] + delim + a;
      assert |a| == |s| - i - |delim|;
    }
    assert t[i + |delim|..] == s[i + |delim|..] + more;
  }

  /** No occurrence lies wholly before the first one. */
  lemma FindPrefixFree<T>(s: seq<T>, delim: seq<T>, i: int)
    requires |delim| > 0 && 0 <= i <= |s|
    requires forall j :: 0 <= j < i ==> !OccursAt(s, delim, j)
    ensures !Contains(s[..i], delim)
  {
    forall j | 0 <= j <= i - |delim| ensures !OccursAt(s[..i], delim, j) {
      if OccursAt(s[..i], delim, j) {
        OccursInPrefix(s, delim, i, j);
        assert false;
      }
    }
  }

  function Prefix<T>(s: seq<T>, n: nat): seq<T> {
    if n <= |s| then s[..n] else s
  }

  predicate StartsWith<T(==)>(s: seq<T>, p: seq<T>) {
    |p| <= |s| && s[..|p|] == p
  }

  /** Where a `for ... if p(x): ... break` search over `s` stops: the first
      element satisfying `p`, or `|s|` when there is none. */
  function FirstIndex<T>(s: seq<T>, p: T -> bool): (k: nat)
    ensures k <= |s|
    ensures forall j :: 0 <= j < k ==> !p(s[j])
    ensures k < |s| ==> p(s[k])
  {
    if s == [] then 0
    else if p(s[0]) then 0
    else
      var k := FirstIndex(s[1..], p);
      assert forall j :: 1 <= j < k + 1 ==> s[j] == s[1..][j - 1];
      1 + k
  }

  // ---------------------------------------------------------------------
  // lower and strip (ASCII)
  // ---------------------------------------------------------------------

  function LowerChar(c: char): char {
    if 'A' <= c <= 'Z' then (c as int + 32) as char else c
  }

  /** `s.lower()` on ASCII text. */
  function Lower(s: string): (r: string)
    ensures |r| == |s|
    ensures forall i :: 0 <= i < |s| ==> r[i] == LowerChar(s[i])
  {
    seq(|s|, i requires 0 <= i < |s| => LowerChar(s[i]))
  }

  /** ASCII characters that Python's `str.strip()` and `int()` treat as
      whitespace: tab, line feed, vertical tab, form feed, carriage return,
      the four separators 0x1c-0x1f, and space. */
  predicate IsSpace(c: char) {
    (9 <= c as int <= 13) || (28 <= c as int <= 32)
  }

  function StripLeft(s: string): (r: string)
    ensures |r| <= |s| && r == s[|s| - |r|..]
    ensures forall i :: 0 <= i < |s| - |r| ==> IsSpace(s[i])
    ensures r == [] || !IsSpace(r[0])
  {
    if s != [] && IsSpace(s[0]) then
      var r := StripLeft(s[1..]);
      assert forall i :: 1 <= i < |s| ==> s[i] == s[1..][i - 1];
      r
    else s
  }

  function StripRight(s: string): (r: string)
    ensures |r| <= |s| && r == s[..|r|]
    ensures forall i :: |r| <= i < |s| ==> IsSpace(s[i])
    ensures r == [] || !IsSpace(r[|r| - 1])
  {
    if s != [] && IsSpace(s[|s| - 1]) then
      var r := StripRight(s[..|s| - 1]);
      assert forall i :: 0 <= i < |s| - 1 ==> s[i] == s[..|s| - 1][i];
      r
    else s
  }

  /** `s.strip()`: the middle of `s` with whitespace removed at both ends. */
  function Strip(s: string): (r: string)
    ensures exists i, j :: (0 <= i <= j <= |s| && r == s[i..j]
      && (forall k :: 0 <= k < i ==> IsSpace(s[k]))
      && (forall k :: j <= k < |s| ==> IsSpace(s[k])))
    ensures r == [] || (!IsSpace(r[0]) && !IsSpace(r[|r| - 1]))
  {
    var l := StripLeft(s);
    var r := StripRight(l);
    assert r == s[|s| - |l|..|s| - |l| + |r|];
    r
  }

  // ---------------------------------------------------------------------
  // Decimal numbers: str(n) and int(s)
  // ---------------------------------------------------------------------

  predicate IsDigit(c: char) { '0' <= c <= '9' }

  function DigitChar(d: nat): char
    requires d < 10
  {
    ('0' as int + d) as char
  }

  /** `str(n)` for a non-negative integer. */
  function NatToText(n: nat): (r: string)
    ensures |r| >= 1
    ensures forall i :: 0 <= i < |r| ==> IsDigit(r[i])
    ensures |r| > 1 ==> r[0] != '0'
  {
    if n < 10 then [DigitChar(n)] else NatToText(n / 10) + [DigitChar(n % 10)]
  }

  /** The value of a string of decimal digits. */
  function DigitsValue(s: string): nat
    requires forall i :: 0 <= i < |s| ==> IsDigit(s[i])
  {
    if s == [] then 0
    else
      assert IsDigit(s[|s| - 1]);
      DigitsValue(s[..|s| - 1]) * 10 + (s[|s| - 1] as int - '0' as int)
  }

  lemma {:induction false} DigitsOfNat(n: nat)
    ensures DigitsValue(NatToText(n)) == n
  {
    if n >= 10 {
      DigitsOfNat(n / 10);
      var t := NatToText(n);
      assert t[..|t| - 1] == NatToText(n / 10);
    }
  }

  /** Digits with single underscores between them, as Python's `int()`
      accepts: `1_000` but not `_1`, `1_` or `1__0`. */
  predicate IsDigitGroup(s: string) {
    && |s| > 0
    && IsDigit(s[0]) && IsDigit(s[|s| - 1])
    && (forall i :: 0 <= i < |s| ==> IsDigit(s[i]) || s[i] == '_')
    && (forall i :: 0 <= i < |s| - 1 ==> s[i] == '_' ==> s[i + 1] != '_')
  }

  lemma DigitsAreGroup(s: string)
    requires |s| > 0 && forall i :: 0 <= i < |s| ==> IsDigit(s[i])
    ensures IsDigitGroup(s)
  {
    forall i | 0 <= i < |s| - 1 ensures s[i] != '_' { assert IsDigit(s[i]); }
  }

  function RemoveUnderscores(s: string): (r: string)
    requires forall i :: 0 <= i < |s| ==> IsDigit(s[i]) || s[i] == '_'
    ensures forall i :: 0 <= i < |r| ==> IsDigit(r[i])
    ensures |r| <= |s|
  {
    if s == [] then []
    else if s[0] == '_' then RemoveUnderscores(s[1..])
    else [s[0]] + RemoveUnderscores(s[1..])
  }

  lemma {:induction false} RemoveUnderscoresOfDigits(s: string)
    requires forall i :: 0 <= i < |s| ==> IsDigit(s[i])
    ensures RemoveUnderscores(s) == s
  {
    if s != [] {
      RemoveUnderscoresOfDigits(s[1..]);
    }
  }

  function SignedValue(negative: bool, digits: string): int
    requires IsDigitGroup(digits)
  {
    var v: int := DigitsValue(RemoveUnderscores(digits));
    if negative then -v else v
  }

  /** Python's `int(s)` in base 10 on ASCII text: surrounding whitespace,
      an optional sign, then a digit group; anything else is a ValueError
      (here `None`). */
  function ParseInt(s: string): (r: Option<int>)
  {
    ParseSigned(Strip(s))
  }

  /** An optional sign followed by a digit group, with nothing around it. */
  function ParseSigned(t: string): Option<int> {
    if |t| > 0 && (t[0] == '+' || t[0] == '-') then
      if IsDigitGroup(t[1..]) then Some(SignedValue(t[0] == '-', t[1..])) else None
    else if IsDigitGroup(t) then Some(SignedValue(false, t))
    else None
  }

  lemma {:induction false} StripLeftSpaces(pre: string, rest: string)
    requires forall i :: 0 <= i < |pre| ==> IsSpace(pre[i])
    requires rest == [] || !IsSpace(rest[0])
    ensures StripLeft(pre + rest) == rest
  {
    if pre != [] {
      assert (pre + rest)[1..] == pre[1..] + rest;
      StripLeftSpaces(pre[1..], rest);
    }
  }

  lemma {:induction false} StripRightSpaces(rest: string, post: string)
    requires forall i :: 0 <= i < |post| ==> IsSpace(post[i])
    requires rest == [] || !IsSpace(rest[|rest| - 1])
    ensures StripRight(rest + post) == rest
  {
    if post != [] {
      assert (rest + post)[..|rest + post| - 1] == rest + post[..|post| - 1];
      StripRightSpaces(rest, post[..|post| - 1]);
    }
  }

  lemma ParseSignedDigits(d: string)
    requires |d| > 0 && forall i :: 0 <= i < |d| ==> IsDigit(d[i])
    ensures ParseSigned(d) == Some(DigitsValue(d))
  {
    DigitsAreGroup(d);
    assert IsDigit(d[0]);
    RemoveUnderscoresOfDigits(d);
  }

  /** `int(str(n)) == n`, even with whitespace around the digits. */
  lemma ParseIntOfNat(n: nat, pre: string, post: string)
    requires forall i :: 0 <= i < |pre| ==> IsSpace(pre[i])
    requires forall i :: 0 <= i < |post| ==> IsSpace(post[i])
    ensures ParseInt(pre + NatToText(n) + post) == Some(n)
  {
    var d := NatToText(n);
    assert !IsSpace(d[0]) && !IsSpace(d[|d| - 1]);
    StripLeftSpaces(pre, d + post);
    assert pre + d + post == pre + (d + post);
    StripRightSpaces(d, post);
    assert Strip(pre + d + post) == d;
    ParseSignedDigits(d);
    DigitsOfNat(n);
  }

  /** `int(str(n)) == n`. */
  lemma ParseDecimal(n: nat)
    ensures ParseInt(NatToText(n)) == Some(n)
  {
    ParseIntOfNat(n, "", "");
    assert "" + NatToText(n) + "" == NatToText(n);
  }
}
