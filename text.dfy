/** Character-level string operations used to derive titles: Python's
    `str.replace` for a one-character pattern, and an occurrence count. */
module Text {

  /** Number of occurrences of `c` in `s`. */
  function Count(s: string, c: char): (n: nat)
    ensures n <= |s|
    ensures n == 0 <==> c !in s
  {
    if s == [] then 0
    else (if s[0] == c then 1 else 0) + Count(s[1..], c)
  }

  /** `s.replace(target, repl)` where the pattern is the single character
      `target`: every occurrence of `target` becomes `repl`, everything else
      is kept in place. */
  function Replace(s: string, target: char, repl: string): (r: string)
    ensures target !in repl ==> target !in r
    ensures forall ch :: ch in r ==> ch in repl || (ch in s && ch != target)
  {
    if s == [] then []
    else (if s[0] == target then repl else [s[0]]) + Replace(s[1..], target, repl)
  }

  /** Replacing works piece by piece: it commutes with concatenation. */
  lemma {:induction false} ReplaceAppend(a: string, b: string, target: char, repl: string)
    ensures Replace(a + b, target, repl) == Replace(a, target, repl) + Replace(b, target, repl)
  {
    if a == [] {
      assert a + b == b;
    } else {
      assert (a + b)[1..] == a[1..] + b;
      ReplaceAppend(a[1..], b, target, repl);
    }
  }

  /** Each occurrence of the pattern is traded for `repl`; the rest is kept. */
  lemma {:induction false} ReplaceLength(s: string, target: char, repl: string)
    ensures |Replace(s, target, repl)| == |s| - Count(s, target) + Count(s, target) * |repl|
  {
    if s != [] {
      ReplaceLength(s[1..], target, repl);
      var n := Count(s[1..], target);
      if s[0] == target {
        assert (n + 1) * |repl| == n * |repl| + |repl|;
      }
    }
  }

  /** Replacing a character that does not occur changes nothing. */
  lemma {:induction false} ReplaceAbsent(s: string, target: char, repl: string)
    requires target !in s
    ensures Replace(s, target, repl) == s
  {
    if s != [] {
      assert target !in s[1..] by {
        forall k | 0 <= k < |s[1..]| ensures s[1..][k] != target {
          assert s[1..][k] == s[k + 1];
        }
      }
      ReplaceAbsent(s[1..], target, repl);
      assert [s[0]] + s[1..] == s;
    }
  }

  /** Replacing in a one-character string. */
  lemma ReplaceChar(c: char, target: char, repl: string)
    ensures Replace([c], target, repl) == if c == target then repl else [c]
  {
    assert [c][1..] == [];
  }
}
