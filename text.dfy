/**
 * String helpers on `seq<char>` standing for the JavaScript string methods the
 * survey script relies on: `toLowerCase` (ASCII only), `startsWith`,
 * `includes`, `split(d)[0]` and `Array.prototype.join`.
 */
module Text {

  /** `toLowerCase` on one character, restricted to the ASCII letters. */
  function LowerChar(c: char): (r: char)
    ensures !('A' <= r <= 'Z')
    ensures 'a' <= r <= 'z' <==> 'A' <= c <= 'Z' || 'a' <= c <= 'z'
    ensures !('A' <= c <= 'Z') ==> r == c
    ensures 'A' <= c <= 'Z' ==> r as int - 'a' as int == c as int - 'A' as int
  {
    if 'A' <= c <= 'Z' then (c as int + 32) as char else c
  }

  /** `s.toLowerCase()`, character by character. */
  function Lower(s: string): (r: string)
    ensures |r| == |s|
    ensures forall i :: 0 <= i < |r| ==> !('A' <= r[i] <= 'Z')
    ensures forall i :: 0 <= i < |s| && !('A' <= s[i] <= 'Z') ==> r[i] == s[i]
    ensures forall i :: 0 <= i < |s| && 'A' <= s[i] <= 'Z' ==> r[i] as int - 'a' as int == s[i] as int - 'A' as int
  {
    seq(|s|, i requires 0 <= i < |s| => LowerChar(s[i]))
  }

  /** Lower-casing is idempotent and leaves no upper-case ASCII letter behind. */
  lemma LowerIdempotent(s: string)
    ensures Lower(Lower(s)) == Lower(s)
    ensures forall i :: 0 <= i < |Lower(s)| ==> !('A' <= Lower(s)[i] <= 'Z')
  {
  }

  /** `s.startsWith(p)`. */
  predicate StartsWith(s: string, p: string): (r: bool)
    ensures r <==> |p| <= |s| && forall i :: 0 <= i < |p| ==> s[i] == p[i]
  {
    |p| <= |s| && s[..|p|] == p
  }

  /** `startsWith` holds exactly when the string is the prefix followed by some rest. */
  lemma StartsWithIsConcat(s: string, p: string)
    ensures StartsWith(s, p) <==> exists t :: s == p + t
  {
    if StartsWith(s, p) {
      assert s == p + s[|p|..];
    }
  }

  /** `p` is a suffix of `s`; used to state what `Join` ends with. */
  predicate EndsWith(s: string, p: string)
  {
    |p| <= |s| && s[|s| - |p|..] == p
  }

  /** `sub` occurs in `s` starting at index `i`. */
  predicate OccursAt(s: string, sub: string, i: int)
  {
    0 <= i && i + |sub| <= |s| && s[i..i + |sub|] == sub
  }

  /** `s.includes(sub)`: `sub` is a prefix of `s` or of one of its suffixes. */
  predicate Contains(s: string, sub: string): (r: bool)
    ensures StartsWith(s, sub) ==> r
    ensures r ==> |sub| <= |s|
    decreases |s|
  {
    StartsWith(s, sub) || (|s| > 0 && Contains(s[1..], sub))
  }

  /** Every `includes` hit has a position: the recursive definition agrees with the positional one. */
  lemma {:induction false} ContainsHasPosition(s: string, sub: string)
    requires Contains(s, sub)
    ensures exists i :: OccursAt(s, sub, i)
    decreases |s|
  {
    if StartsWith(s, sub) {
      assert OccursAt(s, sub, 0);
    } else {
      ContainsHasPosition(s[1..], sub);
      var i :| OccursAt(s[1..], sub, i);
      assert s[1..][i..i + |sub|] == s[i + 1..i + 1 + |sub|];
      assert OccursAt(s, sub, i + 1);
    }
  }

  /** Conversely, an occurrence at any position makes `includes` true. */
  lemma {:induction false} PositionGivesContains(s: string, sub: string, i: int)
    requires OccursAt(s, sub, i)
    ensures Contains(s, sub)
    decreases i
  {
    if i == 0 {
      assert s[..|sub|] == s[0..0 + |sub|];
    } else {
      assert s[1..][i - 1..i - 1 + |sub|] == s[i..i + |sub|];
      PositionGivesContains(s[1..], sub, i - 1);
    }
  }

  /** The empty string is included in every string. */
  lemma ContainsEmpty(s: string)
    ensures Contains(s, "")
  {
    assert OccursAt(s, "", 0);
    PositionGivesContains(s, "", 0);
  }

  /** A string is included in itself framed by any text on either side. */
  lemma ContainsMiddle(a: string, b: string, c: string)
    ensures Contains(a + b + c, b)
  {
    var s := a + b + c;
    assert s[|a|..|a| + |b|] == b;
    PositionGivesContains(s, b, |a|);
  }

  /** What `b` includes, `a + b` includes too. */
  lemma ContainsInSuffix(a: string, b: string, sub: string)
    requires Contains(b, sub)
    ensures Contains(a + b, sub)
  {
    ContainsHasPosition(b, sub);
    var i :| OccursAt(b, sub, i);
    assert (a + b)[|a| + i..|a| + i + |sub|] == b[i..i + |sub|];
    PositionGivesContains(a + b, sub, |a| + i);
  }

  /** A string that lacks some character of `sub` does not include `sub`. */
  lemma MissingCharExcludes(s: string, sub: string, k: nat)
    requires k < |sub| && sub[k] !in s
    ensures !Contains(s, sub)
  {
    if Contains(s, sub) {
      ContainsHasPosition(s, sub);
    }
  }

  /**
   * `s.split(d)[0]`: the text before the first `d`, or all of `s` when it has none.
   * The three ensures pin the result down uniquely.
   */
  function FirstField(s: string, d: char): (r: string)
    ensures StartsWith(s, r)
    ensures d !in r
    ensures |r| == |s| || s[|r|] == d
    decreases |s|
  {
    if |s| == 0 || s[0] == d then "" else [s[0]] + FirstField(s[1..], d)
  }

  /**
   * `xs.join(sep)`: the elements in order with `sep` between neighbours; it
   * begins with the first element and ends with the last.
   */
  function Join(xs: seq<string>, sep: string): (r: string)
    ensures |xs| == 0 ==> r == ""
    ensures |xs| > 0 ==> StartsWith(r, xs[0])
    ensures |xs| > 0 ==> EndsWith(r, xs[|xs| - 1])
    decreases |xs|
  {
    if |xs| == 0 then "" else if |xs| == 1 then xs[0] else xs[0] + sep + Join(xs[1..], sep)
  }

  /** Joining loses no element: each one is included in the joined text. */
  lemma {:induction false} JoinContainsEach(xs: seq<string>, sep: string, k: nat)
    requires k < |xs|
    ensures Contains(Join(xs, sep), xs[k])
    decreases |xs|
  {
    if k == 0 {
      assert StartsWith(Join(xs, sep), xs[0]);
    } else {
      var rest := Join(xs[1..], sep);
      JoinContainsEach(xs[1..], sep, k - 1);
      assert xs[1..][k - 1] == xs[k];
      assert Join(xs, sep) == (xs[0] + sep) + rest;
      ContainsInSuffix(xs[0] + sep, rest, xs[k]);
    }
  }

  /** Joining `xs + [x]` appends the separator and `x` to the join of a non-empty `xs`. */
  lemma {:induction false} JoinSnoc(xs: seq<string>, x: string, sep: string)
    requires |xs| > 0
    ensures Join(xs + [x], sep) == Join(xs, sep) + sep + x
    decreases |xs|
  {
    if |xs| == 1 {
      assert xs + [x] == [xs[0], x];
      assert [xs[0], x][1..] == [x];
    } else {
      var ys := xs + [x];
      assert ys[0] == xs[0] && ys[1..] == xs[1..] + [x];
      JoinSnoc(xs[1..], x, sep);
      calc {
        Join(ys, sep);
        xs[0] + sep + Join(xs[1..] + [x], sep);
        xs[0] + sep + (Join(xs[1..], sep) + sep + x);
        (xs[0] + sep + Join(xs[1..], sep)) + sep + x;
      }
    }
  }
}
