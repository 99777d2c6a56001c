/** String helpers with the meaning of the Python built-ins the source uses:
    `str.join`, `str.rstrip`, `str.lower` (on the ASCII letters that matter
    here), `f"{n}"` for naturals, slicing with a possibly negative bound. */
module Text {

  /** `sep.join(parts)`. */
  function Join(parts: seq<string>, sep: string): string
  {
    if |parts| == 0 then ""
    else if |parts| == 1 then parts[0]
    else parts[0] + sep + Join(parts[1..], sep)
  }

  lemma {:induction false} JoinSnoc(parts: seq<string>, x: string, sep: string)
    ensures Join(parts + [x], sep) == if parts == [] then x else Join(parts, sep) + sep + x
  {
    if |parts| <= 1 {
    } else {
      assert (parts + [x])[1..] == parts[1..] + [x];
      JoinSnoc(parts[1..], x, sep);
    }
  }

  /** The parts, each followed by `sep` (what repeated `q += part + sep` builds). */
  function Terminated(parts: seq<string>, sep: string): string
  {
    if parts == [] then "" else Terminated(parts[..|parts| - 1], sep) + parts[|parts| - 1] + sep
  }

  lemma {:induction false} TerminatedIsJoinPlusSep(parts: seq<string>, sep: string, x: string)
    ensures Terminated(parts, sep) + x == Join(parts + [x], sep)
  {
    if parts == [] {
    } else {
      var init := parts[..|parts| - 1];
      var last := parts[|parts| - 1];
      assert parts == init + [last];
      TerminatedIsJoinPlusSep(init, sep, last);
      JoinSnoc(parts, x, sep);
    }
  }

  /** The last character of a join is the last character of the last part. */
  lemma {:induction false} JoinLast(parts: seq<string>, sep: string)
    requires parts != [] && parts[|parts| - 1] != ""
    ensures var j := Join(parts, sep); |j| > 0 && j[|j| - 1] == parts[|parts| - 1][|parts[|parts| - 1]| - 1]
  {
    if |parts| > 1 {
      JoinLast(parts[1..], sep);
    }
  }

  /** Where `s[..j]` ends once its trailing `c`s are dropped. */
  function TrimEnd(s: string, c: char, j: nat): (e: nat)
    requires j <= |s|
    ensures e <= j && (e == 0 || s[e - 1] != c)
    ensures forall k :: e <= k < j ==> s[k] == c
    decreases j
  {
    if j > 0 && s[j - 1] == c then TrimEnd(s, c, j - 1) else j
  }

  /** Where `s[i..]` starts once its leading `c`s are dropped. */
  function TrimStart(s: string, c: char, i: nat): (b: nat)
    requires i <= |s|
    ensures i <= b <= |s| && (b == |s| || s[b] != c)
    ensures forall k :: i <= k < b ==> s[k] == c
    decreases |s| - i
  {
    if i < |s| && s[i] == c then TrimStart(s, c, i + 1) else i
  }

  /** `s.rstrip(c)`: drops every trailing `c`. */
  function RStrip(s: string, c: char): (r: string)
    ensures |r| <= |s| && r == s[..|r|]
    ensures r == [] || r[|r| - 1] != c
    ensures forall k :: |r| <= k < |s| ==> s[k] == c
  {
    s[..TrimEnd(s, c, |s|)]
  }

  /** `s.lstrip(c)`: drops every leading `c`. */
  function LStrip(s: string, c: char): (r: string)
    ensures |r| <= |s| && r == s[|s| - |r|..]
    ensures r == [] || r[0] != c
    ensures forall k :: 0 <= k < |s| - |r| ==> s[k] == c
  {
    s[TrimStart(s, c, 0)..]
  }

  lemma RStripOne(s: string, c: char)
    requires s != [] && s[|s| - 1] != c
    ensures RStrip(s + [c], c) == s
  {
    assert (s + [c])[..|s|] == s;
  }

  function LowerChar(c: char): char
  {
    if 'A' <= c <= 'Z' then (c as int + 32) as char else c
  }

  /** `s.lower()` restricted to ASCII letters. The source only compares a
      lower-cased key with `"id"`, and no character other than `I`/`D`
      lower-cases to `i`/`d` alone, so this is exact for that use. */
  function AsciiLower(s: string): (r: string)
    ensures |r| == |s|
  {
    seq(|s|, i requires 0 <= i < |s| => LowerChar(s[i]))
  }

  /** `key.lower() == "id"`. */
  predicate IsIdName(key: string)
  {
    AsciiLower(key) == "id"
  }

  function DigitChar(d: nat): char
    requires d < 10
  {
    (48 + d) as char
  }

  /** `f"{n}"` for a natural number. */
  function NatToString(n: nat): (s: string)
    ensures |s| > 0
    ensures forall k :: 0 <= k < |s| ==> '0' <= s[k] <= '9'
  {
    if n < 10 then [DigitChar(n)] else NatToString(n / 10) + [DigitChar(n % 10)]
  }

  /** `int(s)` for a string of decimal digits. */
  function ParseNat(s: string): int
  {
    if s == [] then 0 else 10 * ParseNat(s[..|s| - 1]) + (s[|s| - 1] as int - 48)
  }

  lemma {:induction false} NatToStringRoundTrip(n: nat)
    ensures ParseNat(NatToString(n)) == n
  {
    if n >= 10 {
      var s := NatToString(n);
      assert s[..|s| - 1] == NatToString(n / 10);
      NatToStringRoundTrip(n / 10);
    }
  }

  lemma NatToStringInjective(a: nat, b: nat)
    requires NatToString(a) == NatToString(b)
    ensures a == b
  {
    NatToStringRoundTrip(a);
    NatToStringRoundTrip(b);
  }

  /** Python `s[:k]` for any integer `k` (a negative `k` counts from the end). */
  function PyPrefix(s: string, k: int): (r: string)
    ensures |r| <= |s| && r == s[..|r|]
  {
    if k >= 0 then (if k <= |s| then s[..k] else s)
    else if |s| + k >= 0 then s[..|s| + k] else []
  }

  /** `truncate_string`: strings longer than `maxLength` become a prefix plus `"..."`. */
  function TruncateString(s: string, maxLength: int): (r: string)
    ensures |s| <= maxLength ==> r == s
    ensures 3 <= maxLength < |s| ==> |r| == maxLength && r == s[..maxLength - 3] + "..."
    ensures 0 <= maxLength < 3 && maxLength < |s| ==> |r| >= 3 && |r| > maxLength && r[|r| - 3..] == "..."
  {
    if |s| <= maxLength then s else PyPrefix(s, maxLength - 3) + "..."
  }

  /** Python `t in s` on two strings: `t` occurs in `s` as a contiguous piece. */
  predicate Occurs(t: string, s: string)
    decreases |s|
  {
    t <= s || (s != [] && Occurs(t, s[1..]))
  }

  /** `t` is the slice of `s` that starts at `i`. */
  predicate SliceAt(t: string, s: string, i: int)
  {
    0 <= i && i + |t| <= |s| && s[i..i + |t|] == t
  }

  /** `t` occurs in `s` exactly when some slice of `s` is `t`. */
  lemma {:induction false} OccursAt(t: string, s: string)
    ensures Occurs(t, s) <==> exists i :: SliceAt(t, s, i)
    decreases |s|
  {
    if t <= s {
      assert SliceAt(t, s, 0);
    } else if s != [] {
      OccursAt(t, s[1..]);
      if Occurs(t, s[1..]) {
        var j :| SliceAt(t, s[1..], j);
        assert s[j + 1..j + 1 + |t|] == s[1..][j..j + |t|];
        assert SliceAt(t, s, j + 1);
      } else {
        forall i | 0 < i ensures !SliceAt(t, s, i) {
          assert !SliceAt(t, s[1..], i - 1);
          if i + |t| <= |s| {
            assert s[i..i + |t|] == s[1..][i - 1..i - 1 + |t|];
          }
        }
      }
    }
  }

  function Repeat(s: string, n: nat): (r: seq<string>)
    ensures |r| == n && forall k :: 0 <= k < n ==> r[k] == s
  {
    seq(n, _ => s)
  }

  function Count(s: string, c: char): nat
  {
    if s == [] then 0 else (if s[0] == c then 1 else 0) + Count(s[1..], c)
  }

  lemma {:induction false} CountAppend(a: string, b: string, c: char)
    ensures Count(a + b, c) == Count(a, c) + Count(b, c)
  {
    if a == [] {
      assert a + b == b;
    } else {
      assert (a + b)[1..] == a[1..] + b;
      CountAppend(a[1..], b, c);
    }
  }

  function Reverse<T>(s: seq<T>): (r: seq<T>)
    ensures |r| == |s|
    ensures forall k :: 0 <= k < |s| ==> r[k] == s[|s| - 1 - k]
  {
    if s == [] then [] else Reverse(s[1..]) + [s[0]]
  }
}
