/** The Python string operations the scraper relies on: lower(), `in`, split(),
    join(), replace() with a one-character pattern, rstrip() with one character
    and startswith(). Only ASCII letters are case-mapped. */
module Text {
  import opened Wrappers

  predicate IsUpper(c: char) { 'A' <= c <= 'Z' }

  /** No ASCII upper-case letter anywhere in `s`. */
  predicate NoUpper(s: string) {
    forall k | 0 <= k < |s| :: !IsUpper(s[k])
  }

  function LowerChar(c: char): (r: char)
    ensures !IsUpper(r)
    ensures !IsUpper(c) ==> r == c
    ensures IsUpper(c) ==> r as int == c as int + 32
  {
    if IsUpper(c) then (c as int + 32) as char else c
  }

  /** `s.lower()`, restricted to ASCII. */
  function Lower(s: string): (r: string)
    ensures |r| == |s|
    ensures forall k | 0 <= k < |s| :: r[k] == LowerChar(s[k])
    ensures NoUpper(r)
  {
    seq(|s|, k requires 0 <= k < |s| => LowerChar(s[k]))
  }

  lemma LowerOfNoUpper(s: string)
    requires NoUpper(s)
    ensures Lower(s) == s
  {
  }

  /** Lower-casing twice is lower-casing once. */
  lemma LowerIdempotent(s: string)
    ensures Lower(Lower(s)) == Lower(s)
  {
    LowerOfNoUpper(Lower(s));
  }

  lemma LowerAppend(a: string, b: string)
    ensures Lower(a + b) == Lower(a) + Lower(b)
  {
  }

  /** `p` occurs in `s` starting at index `j`. */
  predicate OccursAt(s: string, p: string, j: int)
    requires 0 <= j <= |s|
  {
    p <= s[j..]
  }

  /** Occurrences in `s[1..]` are the occurrences in `s` shifted by one. */
  lemma OccursShift(s: string, p: string, j: int)
    requires 1 <= j <= |s|
    ensures OccursAt(s, p, j) <==> OccursAt(s[1..], p, j - 1)
  {
    assert s[j..] == s[1..][j - 1..];
  }

  /** `s.find(p)`: the first index at which `p` occurs in `s`, if any. */
  function Find(s: string, p: string): (r: Option<nat>)
    ensures r.Some? ==> r.value + |p| <= |s| && OccursAt(s, p, r.value)
    ensures r.Some? ==> forall j | 0 <= j < r.value :: !OccursAt(s, p, j)
    ensures r.None? ==> forall j | 0 <= j <= |s| :: !OccursAt(s, p, j)
    decreases |s|
  {
    if p <= s then Some(0)
    else if s == [] then None
    else
      var rest := Find(s[1..], p);
      assert forall j | 1 <= j <= |s| :: OccursAt(s, p, j) == OccursAt(s[1..], p, j - 1) by {
        forall j | 1 <= j <= |s| ensures OccursAt(s, p, j) == OccursAt(s[1..], p, j - 1) {
          OccursShift(s, p, j);
        }
      }
      match rest
      case Some(i) => Some(i + 1)
      case None => None
  }

  /** Python's `p in s`. */
  predicate Contains(s: string, p: string) {
    Find(s, p).Some?
  }

  /** `Contains` means what it says: some index where `p` starts. */
  lemma ContainsIff(s: string, p: string)
    ensures Contains(s, p) <==> exists j | 0 <= j <= |s| :: OccursAt(s, p, j)
  {
    if Contains(s, p) {
      var i := Find(s, p).value;
      assert OccursAt(s, p, i);
    }
  }

  /** A string missing one of `p`'s characters cannot contain `p`. */
  lemma MissingCharNotContained(s: string, p: string, c: char)
    requires c in p && c !in s
    ensures !Contains(s, p)
  {
    var k :| 0 <= k < |p| && p[k] == c;
    forall j | 0 <= j <= |s| ensures !OccursAt(s, p, j) {
      if j + |p| <= |s| {
        assert s[j..][k] != p[k];
      }
    }
  }

  /** A one-character pattern is contained exactly when the character is. */
  lemma ContainsChar(s: string, c: char)
    ensures Contains(s, [c]) <==> c in s
  {
    if c in s {
      var k :| 0 <= k < |s| && s[k] == c;
      assert OccursAt(s, [c], k);
      ContainsIff(s, [c]);
    } else {
      MissingCharNotContained(s, [c], c);
    }
  }

  /** If `p` does not occur in `s` before index `i`, it does not occur in `s[..i]`. */
  lemma NotContainedBefore(s: string, p: string, i: nat)
    requires |p| > 0 && i <= |s|
    requires forall j | 0 <= j < i :: !OccursAt(s, p, j)
    ensures !Contains(s[..i], p)
  {
    if Contains(s[..i], p) {
      var j := Find(s[..i], p).value;
      assert s[..i][j..j + |p|] == s[j..j + |p|];
      assert OccursAt(s, p, j);
    }
  }

  /** `s.split(sep)`: the pieces between non-overlapping occurrences of `sep`,
      scanning left to right. */
  function Split(s: string, sep: string): (parts: seq<string>)
    requires |sep| > 0
    ensures |parts| >= 1
    ensures forall k | 0 <= k < |parts| :: !Contains(parts[k], sep)
    decreases |s|
  {
    match Find(s, sep)
    case None => [s]
    case Some(i) =>
      NotContainedBefore(s, sep, i);
      [s[..i]] + Split(s[i + |sep|..], sep)
  }

  /** A split at a first separator is the piece before it and the split of the rest. */
  lemma SplitStep(s: string, sep: string, i: nat)
    requires |sep| > 0 && Find(s, sep) == Some(i)
    ensures Split(s, sep) == [s[..i]] + Split(s[i + |sep|..], sep)
  {
    var f := Find(s, sep);
    assert f.value == i;
    assert s[f.value + |sep|..] == s[i + |sep|..];
  }

  /** Both ends cut from a string without upper-case letters have none. */
  lemma EndsNoUpper(s: string, i: nat, j: nat)
    requires i <= j <= |s| && NoUpper(s)
    ensures NoUpper(s[..i]) && NoUpper(s[j..])
  {
    assert forall k | 0 <= k < i :: s[..i][k] == s[k];
    assert forall k | 0 <= k < |s| - j :: s[j..][k] == s[j + k];
  }

  /** A piece without upper-case letters in front of pieces without any. */
  lemma ConsNoUpper(head: string, rest: seq<string>)
    requires NoUpper(head) && forall k | 0 <= k < |rest| :: NoUpper(rest[k])
    ensures forall k | 0 <= k < |[head] + rest| :: NoUpper(([head] + rest)[k])
  {
    forall k | 0 <= k < |[head] + rest| ensures NoUpper(([head] + rest)[k]) {
      if k > 0 {
        assert ([head] + rest)[k] == rest[k - 1];
      }
    }
  }

  /** The pieces of a string without upper-case letters have none either. */
  lemma {:induction false} SplitNoUpper(s: string, sep: string)
    requires |sep| > 0 && NoUpper(s)
    ensures forall k | 0 <= k < |Split(s, sep)| :: NoUpper(Split(s, sep)[k])
    decreases |s|
  {
    var f := Find(s, sep);
    if f.Some? {
      var i := f.value;
      var tail := s[i + |sep|..];
      EndsNoUpper(s, i, i + |sep|);
      SplitNoUpper(tail, sep);
      SplitStep(s, sep, i);
      ConsNoUpper(s[..i], Split(tail, sep));
    }
  }

  /** `sep.join(parts)`. */
  function Join(parts: seq<string>, sep: string): string {
    if parts == [] then []
    else if |parts| == 1 then parts[0]
    else parts[0] + sep + Join(parts[1..], sep)
  }

  /** Joining a piece in front of a non-empty list puts the separator between. */
  lemma JoinCons(a: string, rest: seq<string>, sep: string)
    requires |rest| >= 1
    ensures Join([a] + rest, sep) == a + sep + Join(rest, sep)
  {
    assert ([a] + rest)[0] == a && ([a] + rest)[1..] == rest;
  }

  /** The string is the part before the first separator, the separator and the rest. */
  lemma FindDecomposes(s: string, sep: string, i: nat)
    requires |sep| > 0 && Find(s, sep) == Some(i)
    ensures s == s[..i] + sep + s[i + |sep|..]
  {
    assert s[i..i + |sep|] == sep;
  }

  /** Joining the pieces of a split gives back the original string. */
  lemma {:induction false} JoinSplit(s: string, sep: string)
    requires |sep| > 0
    ensures Join(Split(s, sep), sep) == s
    decreases |s|
  {
    match Find(s, sep)
    case None =>
    case Some(i) =>
      var tail := s[i + |sep|..];
      var rest := Split(tail, sep);
      SplitStep(s, sep, i);
      JoinCons(s[..i], rest, sep);
      JoinSplit(tail, sep);
      FindDecomposes(s, sep, i);
  }

  /** The first piece of a split is everything before the first separator. */
  lemma SplitHead(s: string, sep: string)
    requires |sep| > 0
    ensures Split(s, sep)[0] == (match Find(s, sep) case None => s case Some(i) => s[..i])
  {
  }

  /** Joining lower-case pieces with a lower-case separator gives a lower-case string. */
  lemma {:induction false} JoinNoUpper(parts: seq<string>, sep: string)
    requires NoUpper(sep)
    requires forall k | 0 <= k < |parts| :: NoUpper(parts[k])
    ensures NoUpper(Join(parts, sep))
  {
    if |parts| > 1 {
      JoinNoUpper(parts[1..], sep);
      var rest := Join(parts[1..], sep);
      var j := parts[0] + sep + rest;
      forall k | 0 <= k < |j| ensures !IsUpper(j[k]) {
        if k < |parts[0]| {
          assert j[k] == parts[0][k];
        } else if k < |parts[0]| + |sep| {
          assert j[k] == sep[k - |parts[0]|];
        } else {
          assert j[k] == rest[k - |parts[0]| - |sep|];
        }
      }
    }
  }

  /** Python's `s.replace(c, r)` for a one-character pattern `c`. */
  function ReplaceChar(s: string, c: char, r: string): (t: string)
    ensures c !in r ==> c !in t
  {
    if s == [] then []
    else (if s[0] == c then r else [s[0]]) + ReplaceChar(s[1..], c, r)
  }

  lemma {:induction false} ReplaceCharAppend(a: string, b: string, c: char, r: string)
    ensures ReplaceChar(a + b, c, r) == ReplaceChar(a, c, r) + ReplaceChar(b, c, r)
  {
    if a != [] {
      var head := if a[0] == c then r else [a[0]];
      assert (a + b)[0] == a[0] && (a + b)[1..] == a[1..] + b;
      ReplaceCharAppend(a[1..], b, c, r);
      calc {
        ReplaceChar(a + b, c, r);
        head + ReplaceChar(a[1..] + b, c, r);
        head + ReplaceChar(a[1..], c, r) + ReplaceChar(b, c, r);
        ReplaceChar(a, c, r) + ReplaceChar(b, c, r);
      }
    } else {
      assert a + b == b;
    }
  }

  /** Replacing a character that does not occur changes nothing. */
  lemma {:induction false} ReplaceCharAbsent(s: string, c: char, r: string)
    requires c !in s
    ensures ReplaceChar(s, c, r) == s
  {
    if s != [] {
      ReplaceCharAbsent(s[1..], c, r);
    }
  }

  /** `s.rstrip(c)` for one character `c`. */
  function RStrip(s: string, c: char): (r: string)
    ensures r <= s
    ensures forall k | |r| <= k < |s| :: s[k] == c
    ensures r == [] || r[|r| - 1] != c
  {
    if s != [] && s[|s| - 1] == c then RStrip(s[..|s| - 1], c) else s
  }

  /** rstrip removes exactly the trailing run of `c`: the prefix it returns is the
      only prefix that leaves nothing but `c` behind and does not itself end in `c`. */
  lemma RStripUnique(s: string, c: char, p: string)
    requires p <= s
    requires forall k | |p| <= k < |s| :: s[k] == c
    requires p == [] || p[|p| - 1] != c
    ensures RStrip(s, c) == p
  {
    var r := RStrip(s, c);
    if |p| > 0 {
      assert s[|p| - 1] != c;
    }
    if |r| > 0 {
      assert s[|r| - 1] != c;
    }
    assert |r| == |p|;
  }

  /** Stripping is unaffected by one more trailing `c`, and is idempotent. */
  lemma RStripTrailing(s: string, c: char)
    ensures RStrip(s + [c], c) == RStrip(s, c)
    ensures RStrip(RStrip(s, c), c) == RStrip(s, c)
  {
    assert (s + [c])[..|s|] == s;
  }

  /** The first occurrence of a character that `a` lacks is right after `a`. */
  lemma FindCharAfter(a: string, c: char, b: string)
    requires c !in a
    ensures Find(a + [c] + b, [c]) == Some(|a|)
  {
    var s := a + [c] + b;
    assert OccursAt(s, [c], |a|) by { assert s[|a|..] == [c] + b; }
    forall j | 0 <= j < |a| ensures !OccursAt(s, [c], j) {
      assert s[j..][0] == a[j];
    }
  }

  lemma FindCharAbsent(a: string, c: char)
    requires c !in a
    ensures Find(a, [c]) == None
  {
    ContainsChar(a, c);
  }

  /** Splitting at a character that `a` lacks peels `a` off first. */
  lemma SplitAtFirst(a: string, c: char, b: string)
    requires c !in a
    ensures Split(a + [c] + b, [c]) == [a] + Split(b, [c])
  {
    var s := a + [c] + b;
    FindCharAfter(a, c, b);
    assert s[..|a|] == a && s[|a| + 1..] == b;
  }


  /** How many times `c` occurs in `s` (Python's `s.count(c)`). */
  function CountChar(s: string, c: char): (n: nat)
    ensures n <= |s|
    ensures n == 0 <==> c !in s
  {
    if s == [] then 0
    else (if s[0] == c then 1 else 0) + CountChar(s[1..], c)
  }

  lemma {:induction false} CountAppend(a: string, b: string, c: char)
    ensures CountChar(a + b, c) == CountChar(a, c) + CountChar(b, c)
    decreases |a|
  {
    if a == [] {
      assert a + b == b;
    } else {
      assert (a + b)[0] == a[0] && (a + b)[1..] == a[1..] + b;
      CountAppend(a[1..], b, c);
    }
  }

  /** Splitting at a one-character separator yields one piece more than
      there are occurrences of that character. */
  lemma {:induction false} SplitCount(s: string, c: char)
    ensures |Split(s, [c])| == CountChar(s, c) + 1
    decreases |s|
  {
    var f := Find(s, [c]);
    if f.None? {
      ContainsChar(s, c);
    } else {
      var i := f.value;
      SplitStep(s, [c], i);
      FindDecomposes(s, [c], i);
      NotContainedBefore(s, [c], i);
      ContainsChar(s[..i], c);
      CountAppend(s[..i] + [c], s[i + 1..], c);
      CountAppend(s[..i], [c], c);
      assert CountChar([c], c) == 1;
      SplitCount(s[i + 1..], c);
    }
  }

}
