/** NUL-terminated strings and strcmp. */
module CString {

  const NUL: char := '\0'

  /** What a char pointer shows of a buffer: everything before the first NUL. */
  function CStr(s: string): (r: string)
    ensures NUL !in r && r <= s
    ensures NUL !in s ==> r == s
    ensures |r| < |s| ==> s[|r|] == NUL
  {
    if s == "" || s[0] == NUL then "" else [s[0]] + CStr(s[1..])
  }

  /** strcmp(a, b) < 0 */
  predicate StrLess(a: string, b: string) {
    b != "" && (a == "" || a[0] < b[0] || (a[0] == b[0] && StrLess(a[1..], b[1..])))
  }

  lemma {:induction false} StrLessIrreflexive(a: string)
    ensures !StrLess(a, a)
  {
    if a != "" { StrLessIrreflexive(a[1..]); }
  }

  lemma {:induction false} StrLessTransitive(a: string, b: string, c: string)
    requires StrLess(a, b) && StrLess(b, c)
    ensures StrLess(a, c)
  {
    if a != "" && a[0] == b[0] && b[0] == c[0] { StrLessTransitive(a[1..], b[1..], c[1..]); }
  }

  lemma {:induction false} StrLessTotal(a: string, b: string)
    ensures StrLess(a, b) || StrLess(b, a) || a == b
  {
    if a != "" && b != "" && a[0] == b[0] {
      StrLessTotal(a[1..], b[1..]);
      assert a == [a[0]] + a[1..] && b == [b[0]] + b[1..];
    }
  }

  /** The strings agree up to position p; there the first one ends or has the smaller byte. */
  ghost predicate DecidesAt(a: string, b: string, p: nat) {
    p <= |a| && p < |b| && a[..p] == b[..p] && (p < |a| ==> a[p] as int < b[p] as int)
  }

  /** strcmp by the first position at which the strings differ. */
  lemma {:induction false} StrLessExactly(a: string, b: string)
    ensures StrLess(a, b) <==> exists p :: DecidesAt(a, b, p)
  {
    if b != "" && (a == "" || a[0] < b[0]) {
      assert DecidesAt(a, b, 0);
    } else if b != "" && a[0] == b[0] {
      StrLessExactly(a[1..], b[1..]);
      if p: nat :| DecidesAt(a[1..], b[1..], p) {
        assert a[..p + 1] == [a[0]] + a[1..][..p] && b[..p + 1] == [b[0]] + b[1..][..p];
        assert DecidesAt(a, b, p + 1);
      }
      if q: nat :| DecidesAt(a, b, q) {
        assert a[1..][..q - 1] == a[..q][1..] && b[1..][..q - 1] == b[..q][1..];
        assert DecidesAt(a[1..], b[1..], q - 1);
      }
    }
  }
}
