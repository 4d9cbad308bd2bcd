/** The string helpers the vault relies on: Python's `str.strip`, `str.lower`,
    `in` on strings, `str.split("/")`, `sep.join(...)` and `str.startswith`. */
module Text {

  /** The characters Python's `str.strip()` removes (`str.isspace`). */
  predicate IsSpace(c: char) {
    c == ' ' || c == '\t' || c == '\n' || c == '\r' || c == '\U{B}' || c == '\U{C}'
    || ('\U{1C}' <= c <= '\U{1F}') || c == '\U{85}' || c == '\U{A0}' || c == '\U{1680}'
    || ('\U{2000}' <= c <= '\U{200A}') || c == '\U{2028}' || c == '\U{2029}' || c == '\U{202F}'
    || c == '\U{205F}' || c == '\U{3000}'
  }

  /** The first position at or after `i` that does not hold whitespace. */
  function SkipSpaces(s: string, i: nat): (j: nat)
    requires i <= |s|
    ensures i <= j <= |s|
    ensures forall k :: i <= k < j ==> IsSpace(s[k])
    ensures j < |s| ==> !IsSpace(s[j])
    decreases |s| - i
  {
    if i < |s| && IsSpace(s[i]) then SkipSpaces(s, i + 1) else i
  }

  /** The end of `s[lo..hi]` once its trailing whitespace is dropped. */
  function TrimEnd(s: string, lo: nat, hi: nat): (j: nat)
    requires lo <= hi <= |s|
    ensures lo <= j <= hi
    ensures forall k :: j <= k < hi ==> IsSpace(s[k])
    ensures lo < j ==> !IsSpace(s[j - 1])
    decreases hi
  {
    if lo < hi && IsSpace(s[hi - 1]) then TrimEnd(s, lo, hi - 1) else hi
  }

  /** Where `strip` starts and ends in `s`. */
  function StripStart(s: string): nat {
    SkipSpaces(s, 0)
  }

  function StripEnd(s: string): nat {
    TrimEnd(s, StripStart(s), |s|)
  }

  /** `s.strip()`. */
  function Strip(s: string): string {
    s[StripStart(s)..StripEnd(s)]
  }

  /** What `strip` keeps is a contiguous slice of the input, everything it drops
      is whitespace, the slice neither starts nor ends with whitespace, and it is
      empty exactly when the input is all whitespace. */
  lemma StripSpec(s: string)
    ensures StripStart(s) <= StripEnd(s) <= |s| && Strip(s) == s[StripStart(s)..StripEnd(s)]
    ensures forall i :: 0 <= i < StripStart(s) ==> IsSpace(s[i])
    ensures forall i :: StripEnd(s) <= i < |s| ==> IsSpace(s[i])
    ensures Strip(s) == [] <==> forall i :: 0 <= i < |s| ==> IsSpace(s[i])
    ensures Strip(s) != [] ==> !IsSpace(Strip(s)[0]) && !IsSpace(Strip(s)[|Strip(s)| - 1])
  {
    var lo, hi := StripStart(s), StripEnd(s);
    if forall i :: 0 <= i < |s| ==> IsSpace(s[i]) {
      assert lo == |s|;
    }
    if lo < hi {
      assert Strip(s)[0] == s[lo];
      assert Strip(s)[|Strip(s)| - 1] == s[hi - 1];
    }
  }

  /** Stripping keeps only characters of the input. */
  lemma StripKeeps(s: string)
    ensures forall x :: x in Strip(s) ==> x in s
  {
    var lo, hi := StripStart(s), StripEnd(s);
    forall x | x in Strip(s) ensures x in s {
      var i :| 0 <= i < hi - lo && Strip(s)[i] == x;
      assert s[lo + i] == x;
    }
  }

  /** `s.replace(c, "")` for a single character `c`: the other characters, in order. */
  function Erase(s: string, c: char): (r: string)
    ensures forall x :: x in r <==> x in s && x != c
    ensures |r| <= |s|
  {
    if s == [] then []
    else (if s[0] == c then [] else [s[0]]) + Erase(s[1..], c)
  }

  /** `c.lower()` on the ranges this model covers: ASCII, Latin-1 and basic Cyrillic capitals. */
  function LowerChar(c: char): (r: char) {
    if 'A' <= c <= 'Z' then (c as int + 32) as char
    else if '\U{C0}' <= c <= '\U{DE}' && c != '\U{D7}' then (c as int + 32) as char
    else if '\U{410}' <= c <= '\U{42F}' then (c as int + 32) as char
    else if '\U{400}' <= c <= '\U{40F}' then (c as int + 80) as char
    else c
  }

  /** `s.lower()`, character by character. */
  function Lower(s: string): (r: string)
    ensures |r| == |s|
    ensures forall i :: 0 <= i < |s| ==> r[i] == LowerChar(s[i])
  {
    seq(|s|, i requires 0 <= i < |s| => LowerChar(s[i]))
  }

  predicate StartsWith<T(==)>(s: seq<T>, prefix: seq<T>) {
    |prefix| <= |s| && s[..|prefix|] == prefix
  }

  /** Python's `q in t` for strings. */
  predicate Contains(t: string, q: string)
    decreases |t|
  {
    StartsWith(t, q) || (t != [] && Contains(t[1..], q))
  }

  /** `q` occurs in `t` at offset `i`. */
  predicate OccursAt(t: string, q: string, i: int) {
    0 <= i && i + |q| <= |t| && t[i..i + |q|] == q
  }

  /** `Contains` is exactly "occurs at some offset". */
  lemma {:induction false} ContainsAt(t: string, q: string)
    ensures Contains(t, q) <==> exists i :: OccursAt(t, q, i)
  {
    if StartsWith(t, q) {
      assert OccursAt(t, q, 0);
    } else if t == [] {
    } else {
      ContainsAt(t[1..], q);
      if Contains(t[1..], q) {
        var i :| OccursAt(t[1..], q, i);
        assert t[i + 1..i + 1 + |q|] == t[1..][i..i + |q|];
        assert OccursAt(t, q, i + 1);
      } else {
        forall i | OccursAt(t, q, i)
          ensures false
        {
          if i != 0 {
            assert t[1..][i - 1..i - 1 + |q|] == t[i..i + |q|];
            assert OccursAt(t[1..], q, i - 1);
          }
        }
      }
    }
  }

  /** `sep.join(parts)`. */
  function Join(parts: seq<string>, sep: string): string {
    if parts == [] then ""
    else if |parts| == 1 then parts[0]
    else parts[0] + sep + Join(parts[1..], sep)
  }

  /** `s.split("/")`: never empty, and no piece holds a slash. */
  function Split(s: string): (r: seq<string>)
    ensures |r| >= 1
    ensures forall i :: 0 <= i < |r| ==> '/' !in r[i]
  {
    if s == [] then [""]
    else if s[0] == '/' then [""] + Split(s[1..])
    else var rest := Split(s[1..]); [[s[0]] + rest[0]] + rest[1..]
  }

  /** Joining what `split` cut gives the string back. */
  lemma {:induction false} JoinSplit(s: string)
    ensures Join(Split(s), "/") == s
  {
    if s == [] {
    } else if s[0] == '/' {
      JoinSplit(s[1..]);
      var rest := Split(s[1..]);
      assert Split(s)[1..] == rest;
    } else {
      JoinSplit(s[1..]);
      var rest := Split(s[1..]);
      var r := Split(s);
      assert r[0] == [s[0]] + rest[0];
      assert r[1..] == rest[1..];
      if |rest| == 1 {
      } else {
        assert Join(rest, "/") == rest[0] + "/" + Join(rest[1..], "/");
      }
    }
  }

  /** Splitting a join of slash-free names gives the names back. */
  lemma {:induction false} SplitJoin(parts: seq<string>)
    requires |parts| >= 1
    requires forall i :: 0 <= i < |parts| ==> '/' !in parts[i]
    ensures Split(Join(parts, "/")) == parts
  {
    if |parts| == 1 {
      SplitSlashFree(parts[0]);
    } else {
      SplitJoin(parts[1..]);
      SplitConcat(parts[0], Join(parts[1..], "/"));
      assert parts == [parts[0]] + parts[1..];
    }
  }

  lemma {:induction false} SplitSlashFree(s: string)
    requires '/' !in s
    ensures Split(s) == [s]
  {
    if s != [] {
      SplitSlashFree(s[1..]);
      assert [s[0]] + s[1..] == s;
    }
  }

  lemma {:induction false} SplitConcat(a: string, b: string)
    requires '/' !in a
    ensures Split(a + "/" + b) == [a] + Split(b)
  {
    if a == [] {
      assert a + "/" + b == "/" + b;
      assert ("/" + b)[1..] == b;
    } else {
      SplitConcat(a[1..], b);
      assert (a + "/" + b)[1..] == a[1..] + "/" + b;
      assert [a[0]] + a[1..] == a;
    }
  }

  /** `s.split("/")[-1]`. */
  function LastSegment(s: string): string {
    var parts := Split(s); parts[|parts| - 1]
  }

  /** `[p for p in s.split("/") if p]`. */
  function NonEmptyParts(s: string): (r: seq<string>)
    ensures forall i :: 0 <= i < |r| ==> r[i] != "" && '/' !in r[i]
  {
    Filter(Split(s))
  }

  function Filter(parts: seq<string>): (r: seq<string>)
    requires forall i :: 0 <= i < |parts| ==> '/' !in parts[i]
    ensures forall i :: 0 <= i < |r| ==> r[i] != "" && '/' !in r[i]
    ensures |r| <= |parts|
  {
    if parts == [] then []
    else if parts[0] == "" then Filter(parts[1..])
    else [parts[0]] + Filter(parts[1..])
  }

  /** `k == p or k.startswith(p + "/")`: key `k` is `p` or lies in `p`'s subtree. */
  predicate Under(k: string, p: string) {
    k == p || StartsWith(k, p + "/")
  }

  /** Two prefixes of the same key are themselves nested. */
  lemma UnderBoth(t: string, a: string, b: string)
    requires Under(t, a) && Under(t, b) && |a| <= |b|
    ensures Under(b, a)
  {
    if |a| < |b| {
      assert b == t[..|b|];
      assert t[|a|] == '/';
      assert b[..|a| + 1] == t[..|a| + 1] == a + "/";
    } else {
      assert a == t[..|a|] == b;
    }
  }

  /** Where `parts[i]` starts inside `Join(parts, sep)`. */
  function JoinOffset(parts: seq<string>, sep: string, i: nat): nat
    requires i < |parts|
  {
    if i == 0 then 0 else |parts[0]| + |sep| + JoinOffset(parts[1..], sep, i - 1)
  }

  /** Every part occurs in the join, at its offset. */
  lemma {:induction false} JoinPartAt(parts: seq<string>, sep: string, i: nat)
    requires i < |parts|
    ensures OccursAt(Join(parts, sep), parts[i], JoinOffset(parts, sep, i))
  {
    if i == 0 {
      if |parts| > 1 {
        assert Join(parts, sep)[..|parts[0]|] == parts[0];
      }
    } else {
      JoinPartAt(parts[1..], sep, i - 1);
      var t := Join(parts[1..], sep);
      var o := JoinOffset(parts[1..], sep, i - 1);
      var pre := parts[0] + sep;
      assert Join(parts, sep) == pre + t;
      assert (pre + t)[|pre| + o..|pre| + o + |parts[i]|] == t[o..o + |parts[i]|];
    }
  }

  /** Lower-casing keeps an occurrence where it is. */
  lemma LowerOccurs(t: string, q: string, i: int)
    requires OccursAt(t, q, i)
    ensures OccursAt(Lower(t), Lower(q), i)
  {
    assert Lower(t)[i..i + |q|] == Lower(q) by {
      forall j | 0 <= j < |q| ensures Lower(t)[i..i + |q|][j] == Lower(q)[j] {
        assert t[i + j] == q[j];
      }
    }
  }

  /** The lower-cased join contains every lower-cased part. */
  lemma JoinContainsPart(parts: seq<string>, sep: string, i: nat)
    requires i < |parts|
    ensures Contains(Lower(Join(parts, sep)), Lower(parts[i]))
  {
    JoinPartAt(parts, sep, i);
    LowerOccurs(Join(parts, sep), parts[i], JoinOffset(parts, sep, i));
    ContainsAt(Lower(Join(parts, sep)), Lower(parts[i]));
  }
}
