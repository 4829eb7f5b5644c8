/**
 * The string operations the Rust code takes from its standard library:
 * `str::find`, `str::contains`, `str::split`, `str::replace`, `[String]::join`,
 * `strip_prefix` / `strip_suffix`.
 */
module Text {
  import opened Wrappers

  /** `p` occurs in `s` starting at index `i`. */
  predicate OccursAt(s: string, p: string, i: int) {
    0 <= i && i + |p| <= |s| && s[i..i + |p|] == p
  }

  lemma OccursShift(s: string, p: string, j: int)
    requires |s| > 0 && j >= 0
    ensures OccursAt(s[1..], p, j) <==> OccursAt(s, p, j + 1)
  {
    if j + |p| <= |s| - 1 {
      assert s[1..][j..j + |p|] == s[j + 1..j + 1 + |p|];
    }
  }

  /** Index of the first occurrence of `p` in `s` (`str::find`). */
  function IndexOf(s: string, p: string): (r: Option<nat>)
    ensures r.Some? ==> OccursAt(s, p, r.value)
    ensures r.Some? ==> forall j :: 0 <= j < r.value ==> !OccursAt(s, p, j)
    ensures r.None? ==> forall j :: !OccursAt(s, p, j)
    decreases |s|
  {
    if |s| < |p| then None
    else if s[..|p|] == p then Some(0)
    else
      match IndexOf(s[1..], p)
      case None =>
        assert forall j :: !OccursAt(s, p, j) by {
          forall j | OccursAt(s, p, j) ensures false {
            if j > 0 { OccursShift(s, p, j - 1); }
          }
        }
        None
      case Some(i) =>
        OccursShift(s, p, i);
        assert forall j :: 0 <= j < i + 1 ==> !OccursAt(s, p, j) by {
          forall j | 0 < j < i + 1 ensures !OccursAt(s, p, j) {
            OccursShift(s, p, j - 1);
          }
        }
        Some(i + 1)
  }

  /** `str::contains`: `p` occurs somewhere in `s`. */
  predicate Contains(s: string, p: string) {
    IndexOf(s, p).Some?
  }

  lemma ContainsAt(s: string, p: string, i: int)
    requires OccursAt(s, p, i)
    ensures Contains(s, p)
  {
  }

  /** `[String]::join(sep)`. */
  function Join(sep: string, xs: seq<string>): string {
    if |xs| == 0 then ""
    else if |xs| == 1 then xs[0]
    else xs[0] + sep + Join(sep, xs[1..])
  }

  /** `str::split(sep)` for a non-empty separator, collected into a list. */
  function SplitOn(s: string, sep: string): (r: seq<string>)
    requires |sep| > 0
    decreases |s|
  {
    match IndexOf(s, sep)
    case None => [s]
    case Some(i) => [s[..i]] + SplitOn(s[i + |sep|..], sep)
  }

  /** When `x` lacks the separator's first character, the first occurrence of `sep` in `x + sep + rest` is the one after `x`. */
  lemma FirstOccurrenceAfter(x: string, sep: string, rest: string)
    requires |sep| > 0 && sep[0] !in x
    ensures IndexOf(x + sep + rest, sep) == Some(|x|)
  {
    var s := x + sep + rest;
    assert s[|x|..|x| + |sep|] == sep;
    assert OccursAt(s, sep, |x|);
  }

  lemma FirstOccurrenceNone(x: string, sep: string)
    requires |sep| > 0 && sep[0] !in x
    ensures IndexOf(x, sep) == None
  {
  }

  /** One step of `split`: a part without the separator's first character comes off the front. */
  lemma SplitOnFront(x: string, sep: string, rest: string)
    requires |sep| > 0 && sep[0] !in x
    ensures SplitOn(x + sep + rest, sep) == [x] + SplitOn(rest, sep)
  {
    var s := x + sep + rest;
    FirstOccurrenceAfter(x, sep, rest);
    assert s[..|x|] == x;
    assert s[|x| + |sep|..] == rest;
  }

  /** Splitting a join gives the parts back, provided no part holds the separator's first character. */
  lemma {:induction false} SplitJoin(sep: string, xs: seq<string>)
    requires |sep| > 0 && |xs| > 0
    requires forall i :: 0 <= i < |xs| ==> sep[0] !in xs[i]
    ensures SplitOn(Join(sep, xs), sep) == xs
  {
    if |xs| == 1 {
      FirstOccurrenceNone(xs[0], sep);
    } else {
      SplitOnFront(xs[0], sep, Join(sep, xs[1..]));
      SplitJoin(sep, xs[1..]);
      assert xs == [xs[0]] + xs[1..];
    }
  }

  /** `str::strip_prefix`. */
  function StripPrefix(s: string, p: string): (r: Option<string>)
    ensures r.Some? <==> |p| <= |s| && s[..|p|] == p
    ensures r.Some? ==> s == p + r.value
  {
    if |p| <= |s| && s[..|p|] == p then Some(s[|p|..]) else None
  }

  /** `str::strip_suffix`. */
  function StripSuffix(s: string, p: string): (r: Option<string>)
    ensures r.Some? <==> |p| <= |s| && s[|s| - |p|..] == p
    ensures r.Some? ==> s == r.value + p
  {
    if |p| <= |s| && s[|s| - |p|..] == p then Some(s[..|s| - |p|]) else None
  }

  lemma StripPrefixConcat(p: string, rest: string)
    ensures StripPrefix(p + rest, p) == Some(rest)
  {
    assert (p + rest)[..|p|] == p;
    assert (p + rest)[|p|..] == rest;
  }

  lemma StripSuffixConcat(x: string, p: string)
    ensures StripSuffix(x + p, p) == Some(x)
  {
    assert (x + p)[|x + p| - |p|..] == p;
    assert (x + p)[..|x + p| - |p|] == x;
  }

  /** Text framed by a fixed prefix and suffix strips back to its middle. */
  lemma Framed(base: string, mid: string, suffix: string)
    ensures StripPrefix(base + mid + suffix, base) == Some(mid + suffix)
    ensures StripSuffix(mid + suffix, suffix) == Some(mid)
  {
    assert base + mid + suffix == base + (mid + suffix);
    StripPrefixConcat(base, mid + suffix);
    StripSuffixConcat(mid, suffix);
  }

  /** Index of the last `c` in `s` (`str::rfind` for one character). */
  function LastIndexOfChar(s: string, c: char): (r: Option<nat>)
    ensures r.Some? ==> r.value < |s| && s[r.value] == c && c !in s[r.value + 1..]
    ensures r.None? ==> c !in s
  {
    if |s| == 0 then None
    else if s[|s| - 1] == c then Some(|s| - 1)
    else
      var r := LastIndexOfChar(s[..|s| - 1], c);
      assert s == s[..|s| - 1] + [s[|s| - 1]];
      if r.Some? then
        assert s[r.value + 1..] == s[..|s| - 1][r.value + 1..] + [s[|s| - 1]];
        r
      else r
  }

  /** Cuts `s` at the last occurrence of `sep`, found from its first character: the text before and after it. */
  function SplitLast(s: string, sep: string): Option<(string, string)> {
    if |sep| == 0 then None
    else
      match LastIndexOfChar(s, sep[0])
      case None => None
      case Some(k) =>
        match StripPrefix(s[k..], sep)
        case None => None
        case Some(after) => Some((s[..k], after))
  }

  /** When neither the rest of `sep` nor what follows holds the separator's first character, the cut falls after `x`. */
  lemma SplitLastAt(x: string, sep: string, y: string)
    requires |sep| > 0 && sep[0] !in sep[1..] && sep[0] !in y
    ensures SplitLast(x + sep + y, sep) == Some((x, y))
  {
    var s := x + sep + y;
    assert s[|x|] == sep[0];
    assert s[|x| + 1..] == sep[1..] + y;
    assert LastIndexOfChar(s, sep[0]) == Some(|x|);
    assert s[|x|..] == sep + y;
    StripPrefixConcat(sep, y);
    assert s[..|x|] == x;
  }

  /** `str::replace(c, with)` for a single character pattern. */
  function ReplaceChar(s: string, c: char, with: string): (r: string)
    decreases |s|
  {
    if s == [] then []
    else (if s[0] == c then with else [s[0]]) + ReplaceChar(s[1..], c, with)
  }

  /** Every character of the result is an untouched character of `s` or comes from `with`. */
  lemma {:induction false} ReplaceCharChars(s: string, c: char, with: string)
    ensures forall d :: d in ReplaceChar(s, c, with) ==> (d in s && d != c) || d in with
  {
    if s != [] {
      ReplaceCharChars(s[1..], c, with);
      var head := if s[0] == c then with else [s[0]];
      assert ReplaceChar(s, c, with) == head + ReplaceChar(s[1..], c, with);
      forall d | d in ReplaceChar(s, c, with) ensures (d in s && d != c) || d in with {
        if d in head {
        } else {
          assert d in ReplaceChar(s[1..], c, with);
          assert d in s[1..] ==> d in s;
        }
      }
    }
  }
}
