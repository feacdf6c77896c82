/** The JavaScript string operations the program leans on, written out over
    `seq<char>`: `split` and `join` with a one-character separator,
    `includes`, `replace` with a string pattern (first occurrence only),
    `toLowerCase` restricted to ASCII, and the decimal form of a number. */
module Strings {
  import opened Seqs

  /** `s.split(c)`: never empty, and the empty string splits to `[""]`. */
  function Split(s: string, c: char): (r: seq<string>)
    ensures |r| >= 1
    ensures forall i :: 0 <= i < |r| ==> c !in r[i]
    ensures forall x :: x in r ==> c !in x
  {
    if |s| == 0 then [""]
    else
      var rest := Split(s[1..], c);
      if s[0] == c then [""] + rest
      else [[s[0]] + rest[0]] + rest[1..]
  }

  /** `parts.join(c)`; the empty array joins to the empty string. */
  function Join(parts: seq<string>, c: char): string
  {
    if |parts| == 0 then ""
    else if |parts| == 1 then parts[0]
    else parts[0] + [c] + Join(parts[1..], c)
  }

  /** Joining the pieces of a split gives back the original string. */
  lemma {:induction false} JoinSplit(s: string, c: char)
    ensures Join(Split(s, c), c) == s
  {
    if |s| > 0 {
      JoinSplit(s[1..], c);
      var rest := Split(s[1..], c);
      if s[0] == c {
        assert ([""] + rest)[1..] == rest;
        assert s == [c] + s[1..];
      } else if |rest| == 1 {
        assert s == [s[0]] + s[1..];
      } else {
        var parts := [[s[0]] + rest[0]] + rest[1..];
        assert parts[1..] == rest[1..];
        assert Join(rest, c) == rest[0] + [c] + Join(rest[1..], c);
        assert s == [s[0]] + s[1..];
      }
    }
  }

  /** A separator-free prefix glues onto the first piece of the rest. */
  lemma {:induction false} SplitFreePrefix(a: string, t: string, c: char)
    requires c !in a
    ensures Split(a + t, c) == [a + Split(t, c)[0]] + Split(t, c)[1..]
  {
    if |a| > 0 {
      var u := Split(t, c);
      SplitFreePrefix(a[1..], t, c);
      assert (a + t)[1..] == a[1..] + t;
      assert (a + t)[0] == a[0] && a[0] != c;
      var rest := Split(a[1..] + t, c);
      assert Split(a + t, c) == [[a[0]] + rest[0]] + rest[1..];
      assert rest[0] == a[1..] + u[0] && rest[1..] == u[1..];
      assert [a[0]] + (a[1..] + u[0]) == a + u[0];
    } else {
      assert a + t == t;
      assert a == "";
      assert a + Split(t, c)[0] == Split(t, c)[0];
      assert Split(t, c) == [Split(t, c)[0]] + Split(t, c)[1..];
    }
  }

  /** Splitting a join of separator-free pieces gives back the pieces. */
  lemma {:induction false} SplitJoin(parts: seq<string>, c: char)
    requires |parts| >= 1
    requires forall i :: 0 <= i < |parts| ==> c !in parts[i]
    ensures Split(Join(parts, c), c) == parts
  {
    if |parts| == 1 {
      SplitFreePrefix(parts[0], "", c);
      assert parts[0] + "" == parts[0];
    } else {
      var j := Join(parts[1..], c);
      SplitJoin(parts[1..], c);
      SplitFreePrefix(parts[0], [c] + j, c);
      assert parts[0] + [c] + j == parts[0] + ([c] + j);
      assert ([c] + j)[1..] == j;
      assert Split([c] + j, c) == [""] + parts[1..];
      assert parts[0] + "" == parts[0];
      assert parts == [parts[0]] + parts[1..];
    }
  }

  /** A string splits into a single piece exactly when it holds no
      separator. */
  lemma SplitSingle(s: string, c: char)
    ensures |Split(s, c)| == 1 <==> c !in s
  {
    JoinSplit(s, c);
    if c !in s {
      SplitJoin([s], c);
    }
  }

  /** Appending one more piece to a non-empty join. */
  lemma {:induction false} JoinSnoc(parts: seq<string>, x: string, c: char)
    requires |parts| >= 1
    ensures Join(parts + [x], c) == Join(parts, c) + [c] + x
  {
    if |parts| > 1 {
      JoinSnoc(parts[1..], x, c);
      assert (parts + [x])[1..] == parts[1..] + [x];
    }
  }

  /** `hay.includes(needle)`. */
  predicate Contains(hay: string, needle: string)
    decreases |hay|
  {
    needle <= hay || (|hay| > 0 && Contains(hay[1..], needle))
  }

  /** `needle` occurs in `hay` starting at index `k`. */
  predicate OccursAt(hay: string, needle: string, k: nat) {
    k + |needle| <= |hay| && hay[k..k + |needle|] == needle
  }

  /** An occurrence at 0 is a prefix. */
  lemma OccursAtZero(hay: string, needle: string)
    ensures OccursAt(hay, needle, 0) <==> needle <= hay
  {
    if |needle| <= |hay| {
      assert hay[0..|needle|] == hay[..|needle|];
    }
  }

  /** Dropping the first character shifts every occurrence one place left. */
  lemma OccursShift(hay: string, needle: string, k: nat)
    requires |hay| > 0
    ensures OccursAt(hay, needle, k + 1) <==> OccursAt(hay[1..], needle, k)
  {
    if k + 1 + |needle| <= |hay| {
      assert hay[1..][k..k + |needle|] == hay[k + 1..k + 1 + |needle|];
    }
  }

  /** `includes` means an occurrence at some index, and conversely. */
  lemma {:induction false} ContainsIffOccurs(hay: string, needle: string)
    ensures Contains(hay, needle) <==> exists k: nat :: OccursAt(hay, needle, k)
    decreases |hay|
  {
    OccursAtZero(hay, needle);
    if needle <= hay {
    } else if |hay| == 0 {
      assert forall k: nat :: !OccursAt(hay, needle, k);
    } else {
      ContainsIffOccurs(hay[1..], needle);
      if Contains(hay[1..], needle) {
        var k: nat :| OccursAt(hay[1..], needle, k);
        OccursShift(hay, needle, k);
      } else {
        forall k: nat ensures !OccursAt(hay, needle, k) {
          if k > 0 {
            OccursShift(hay, needle, k - 1);
          }
        }
      }
    }
  }

  /** Every string includes the empty string. */
  lemma ContainsEmpty(hay: string)
    ensures Contains(hay, "")
  {
  }

  /** `needle` first occurs in `hay` at index `k`. */
  predicate FirstOccursAt(hay: string, needle: string, k: nat) {
    OccursAt(hay, needle, k) && forall j: nat :: j < k ==> !OccursAt(hay, needle, j)
  }

  /** Two first occurrences are the same occurrence. */
  lemma FirstOccursUnique(hay: string, needle: string, k: nat, k': nat)
    requires FirstOccursAt(hay, needle, k) && FirstOccursAt(hay, needle, k')
    ensures k == k'
  {
  }

  /** The index `indexOf` would report: the first occurrence, if any. */
  function FirstOccurrence(s: string, pat: string): (r: Option<nat>)
    ensures r.Some? ==> FirstOccursAt(s, pat, r.value)
    ensures r.None? ==> forall k: nat :: !OccursAt(s, pat, k)
    decreases |s|
  {
    OccursAtZero(s, pat);
    if pat <= s then Some(0)
    else if |s| == 0 then None
    else
      match FirstOccurrence(s[1..], pat)
      case Some(k) =>
        OccursShift(s, pat, k);
        assert forall j: nat | j < k + 1 :: !OccursAt(s, pat, j) by {
          forall j: nat | 0 < j < k + 1 ensures !OccursAt(s, pat, j) { OccursShift(s, pat, j - 1); }
        }
        Some(k + 1)
      case None =>
        assert forall j: nat :: !OccursAt(s, pat, j) by {
          forall j: nat | 0 < j ensures !OccursAt(s, pat, j) { OccursShift(s, pat, j - 1); }
        }
        None
  }

  /** `s.replace(pat, rep)` with a string pattern: only the first occurrence
      is replaced; a string without an occurrence is returned unchanged. */
  function ReplaceFirst(s: string, pat: string, rep: string): (r: string)
    ensures forall k: nat :: FirstOccursAt(s, pat, k) ==> r == s[..k] + rep + s[k + |pat|..]
    ensures (forall k: nat :: !OccursAt(s, pat, k)) ==> r == s
  {
    match FirstOccurrence(s, pat)
    case Some(k) =>
      assert forall k': nat :: FirstOccursAt(s, pat, k') ==> k' == k by {
        forall k': nat | FirstOccursAt(s, pat, k') ensures k' == k {
          FirstOccursUnique(s, pat, k, k');
        }
      }
      s[..k] + rep + s[k + |pat|..]
    case None => s
  }

  /** ASCII `toLowerCase` of one character. */
  function LowerChar(c: char): (r: char)
    ensures 'A' <= c <= 'Z' ==> 'a' <= r <= 'z' && r as int - 'a' as int == c as int - 'A' as int
    ensures !('A' <= c <= 'Z') ==> r == c
  {
    if 'A' <= c <= 'Z' then (c as int + 32) as char else c
  }

  /** `s.toLowerCase()`, restricted to ASCII letters. */
  function Lower(s: string): (r: string)
    ensures |r| == |s|
    ensures forall i :: 0 <= i < |s| ==> r[i] == LowerChar(s[i])
    ensures forall i :: 0 <= i < |s| ==> !('A' <= r[i] <= 'Z')
  {
    seq(|s|, i requires 0 <= i < |s| => LowerChar(s[i]))
  }

  /** Lowercasing twice is lowercasing once. */
  lemma LowerIdempotent(s: string)
    ensures Lower(Lower(s)) == Lower(s)
  {
    assert forall i :: 0 <= i < |s| ==> LowerChar(LowerChar(s[i])) == LowerChar(s[i]);
  }

  /** Decimal digit characters. */
  predicate IsDigit(c: char) {
    '0' <= c <= '9'
  }

  /** `String(n)` for a non-negative integer such as `Date.now()`. */
  function NatToString(n: nat): (r: string)
    ensures |r| >= 1
    ensures forall i :: 0 <= i < |r| ==> IsDigit(r[i])
  {
    if n < 10 then [(48 + n) as char]
    else NatToString(n / 10) + [(48 + n % 10) as char]
  }

  /** Different numbers print differently. */
  lemma {:induction false} NatToStringInjective(a: nat, b: nat)
    requires NatToString(a) == NatToString(b)
    ensures a == b
    decreases a
  {
    if a >= 10 && b >= 10 {
      var sa, sb := NatToString(a), NatToString(b);
      assert sa[..|sa| - 1] == NatToString(a / 10);
      assert sb[..|sb| - 1] == NatToString(b / 10);
      NatToStringInjective(a / 10, b / 10);
      assert sa[|sa| - 1] == sb[|sb| - 1];
    }
  }
}
