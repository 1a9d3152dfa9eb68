/**
 * Plain string operations that the scripts use through Python's and JavaScript's
 * string methods: `in`, `find`/`indexOf`, `split`, `join`, the first-occurrence
 * `replace` of JavaScript, and the whitespace class `\s` of Python's `re`.
 */
module Text {
  import opened Wrappers

  /** `s.startswith(p)` */
  predicate IsPrefix(p: string, s: string) {
    |p| <= |s| && s[..|p|] == p
  }

  /** Python's `p in s` (and JavaScript's `s.includes(p)`). */
  predicate Contains(s: string, p: string)
    decreases |s|
  {
    IsPrefix(p, s) || (|s| > 0 && Contains(s[1..], p))
  }

  /** Python's `s.find(p)` / JavaScript's `s.indexOf(p)`: the first index at which `p` occurs. */
  function Find(s: string, p: string): (r: Option<nat>)
    ensures r.Some? ==> r.value + |p| <= |s|
  {
    FindFrom(s, p, 0)
  }

  /** The first index at or after `q` at which `p` occurs. */
  function FindFrom(s: string, p: string, q: nat): (r: Option<nat>)
    ensures r.Some? ==> q <= r.value && r.value + |p| <= |s|
    decreases |s| - q
  {
    if q + |p| > |s| then None
    else if IsPrefix(p, s[q..]) then Some(q)
    else FindFrom(s, p, q + 1)
  }

  /** `FindFrom` stops at an occurrence and skips only places where `p` does not occur. */
  lemma {:induction false} FindFromSpec(s: string, p: string, q: nat)
    ensures FindFrom(s, p, q).Some? ==>
      && IsPrefix(p, s[FindFrom(s, p, q).value..])
      && forall j {:trigger IsPrefix(p, s[j..])} :: q <= j < FindFrom(s, p, q).value ==> !IsPrefix(p, s[j..])
    ensures FindFrom(s, p, q).None? ==>
      forall j {:trigger IsPrefix(p, s[j..])} :: q <= j <= |s| ==> !IsPrefix(p, s[j..])
    decreases |s| - q
  {
    if q + |p| <= |s| && !IsPrefix(p, s[q..]) {
      FindFromSpec(s, p, q + 1);
    }
  }

  /** An occurrence at `c` with none between `q` and `c` is the one `FindFrom` reports. */
  lemma {:induction false} FindFromIs(s: string, p: string, q: nat, c: nat)
    requires q <= c && c + |p| <= |s| && IsPrefix(p, s[c..])
    requires forall j {:trigger IsPrefix(p, s[j..])} :: q <= j < c ==> !IsPrefix(p, s[j..])
    ensures FindFrom(s, p, q) == Some(c)
    decreases c - q
  {
    if q < c {
      FindFromIs(s, p, q + 1, c);
    }
  }

  /** A text that contains `p` has it at some index. */
  lemma {:induction false} ContainsWitness(s: string, p: string) returns (i: nat)
    requires Contains(s, p)
    ensures i <= |s| && IsPrefix(p, s[i..])
    decreases |s|
  {
    if IsPrefix(p, s) {
      i := 0;
    } else {
      var k := ContainsWitness(s[1..], p);
      assert s[1..][k..] == s[k + 1..];
      i := k + 1;
    }
  }

  /** `Find` gives the first occurrence, and nothing exactly when there is none. */
  lemma FindSpec(s: string, p: string)
    ensures Find(s, p).Some? ==> FirstAt(s, p, Find(s, p).value)
    ensures Find(s, p).None? <==> !Contains(s, p)
  {
    FindFromSpec(s, p, 0);
    if Find(s, p).Some? {
      ContainsAt(s, p, Find(s, p).value);
    }
    if Contains(s, p) {
      var i := ContainsWitness(s, p);
    }
  }

  lemma {:induction false} ContainsAt(s: string, p: string, i: nat)
    requires i <= |s| && IsPrefix(p, s[i..])
    ensures Contains(s, p)
  {
    if i > 0 {
      assert s[1..][i - 1..] == s[i..];
      ContainsAt(s[1..], p, i - 1);
    }
  }

  lemma ContainsSelf(s: string)
    ensures Contains(s, s)
  {
    assert IsPrefix(s, s);
  }

  lemma {:induction false} ContainsLeft(a: string, b: string, p: string)
    requires Contains(a, p)
    ensures Contains(a + b, p)
  {
    if IsPrefix(p, a) {
      assert (a + b)[..|p|] == a[..|p|];
    } else {
      assert (a + b)[1..] == a[1..] + b;
      ContainsLeft(a[1..], b, p);
    }
  }

  lemma {:induction false} ContainsRight(a: string, b: string, p: string)
    requires Contains(b, p)
    ensures Contains(a + b, p)
  {
    if |a| == 0 {
      assert a + b == b;
    } else {
      assert (a + b)[1..] == a[1..] + b;
      ContainsRight(a[1..], b, p);
    }
  }

  /** A text contains each of its middle parts. */
  lemma ContainsMiddle(a: string, b: string, c: string)
    ensures Contains(a + b + c, b)
  {
    ContainsSelf(b);
    ContainsRight(a, b, b);
    ContainsLeft(a + b, c, b);
  }

  /** Containment is transitive: a text holding `t` holds everything `t` holds. */
  lemma ContainsTrans(s: string, t: string, p: string)
    requires Contains(s, t) && Contains(t, p)
    ensures Contains(s, p)
  {
    FindSpec(s, t);
    FindSpec(t, p);
    var i := Find(s, t).value;
    var j := Find(t, p).value;
    assert forall k :: 0 <= k < |t| ==> t[k] == s[i..][..|t|][k] == s[i + k];
    assert forall k :: 0 <= k < |p| ==> p[k] == t[j..][..|p|][k] == t[j + k];
    assert s[i + j..][..|p|] == p;
    ContainsAt(s, p, i + j);
  }

  /** Python's `s.split(sep)`: the pieces between the non-overlapping occurrences of `sep`, left to right. */
  function Split(s: string, sep: string): (r: seq<string>)
    requires |sep| > 0
    ensures |r| >= 1
    decreases |s|
  {
    if |s| == 0 then [""]
    else if IsPrefix(sep, s) then [""] + Split(s[|sep|..], sep)
    else
      var rest := Split(s[1..], sep);
      [[s[0]] + rest[0]] + rest[1..]
  }

  /** Python's `sep.join(ps)`. */
  function Join(ps: seq<string>, sep: string): string
  {
    if |ps| == 0 then ""
    else if |ps| == 1 then ps[0]
    else ps[0] + sep + Join(ps[1..], sep)
  }

  lemma JoinConsChar(c: char, ps: seq<string>, sep: string)
    requires |ps| >= 1
    ensures Join([[c] + ps[0]] + ps[1..], sep) == [c] + Join(ps, sep)
  {
    var qs := [[c] + ps[0]] + ps[1..];
    assert qs[1..] == ps[1..];
  }

  /** Splitting and joining with the same separator gives the text back. */
  lemma {:induction false} JoinSplit(s: string, sep: string)
    requires |sep| > 0
    ensures Join(Split(s, sep), sep) == s
    decreases |s|
  {
    if |s| == 0 {
    } else if IsPrefix(sep, s) {
      JoinSplit(s[|sep|..], sep);
      var rest := Split(s[|sep|..], sep);
      assert ([""] + rest)[1..] == rest;
      assert s == sep + s[|sep|..];
    } else {
      JoinSplit(s[1..], sep);
      JoinConsChar(s[0], Split(s[1..], sep), sep);
      assert s == [s[0]] + s[1..];
    }
  }

  /** The text splits into two or more pieces exactly when it contains the separator. */
  lemma {:induction false} SplitCount(s: string, sep: string)
    requires |sep| > 0
    ensures |Split(s, sep)| >= 2 <==> Contains(s, sep)
    decreases |s|
  {
    if |s| == 0 {
    } else if IsPrefix(sep, s) {
    } else {
      SplitCount(s[1..], sep);
    }
  }

  /** The first piece is a prefix of the text. */
  lemma {:induction false} SplitHead(s: string, sep: string)
    requires |sep| > 0
    ensures IsPrefix(Split(s, sep)[0], s)
    decreases |s|
  {
    if |s| > 0 && !IsPrefix(sep, s) {
      SplitHead(s[1..], sep);
      var r0 := Split(s[1..], sep)[0];
      assert s[..1 + |r0|] == [s[0]] + s[1..][..|r0|];
    }
  }

  /** No piece contains the separator. */
  lemma {:induction false} SplitPieceFree(s: string, sep: string, k: nat)
    requires |sep| > 0 && k < |Split(s, sep)|
    ensures !Contains(Split(s, sep)[k], sep)
    decreases |s|
  {
    if |s| == 0 {
    } else if IsPrefix(sep, s) {
      if k > 0 {
        SplitPieceFree(s[|sep|..], sep, k - 1);
      }
    } else {
      var rest := Split(s[1..], sep);
      if k == 0 {
        SplitPieceFree(s[1..], sep, 0);
        SplitHead(s[1..], sep);
        var p := [s[0]] + rest[0];
        assert p[1..] == rest[0];
      } else {
        SplitPieceFree(s[1..], sep, k);
      }
    }
  }

  /**
   * When `sep` starts nowhere in `x[q..c]`, splitting `x[q..]` puts all of `x[q..c]` at the
   * head of the first piece of the split of `x[c..]`.
   */
  lemma {:induction false} SplitAhead(x: string, sep: string, q: nat, c: nat)
    requires |sep| > 0 && q <= c <= |x|
    requires forall j {:trigger IsPrefix(sep, x[j..])} :: q <= j < c ==> !IsPrefix(sep, x[j..])
    ensures Split(x[q..], sep) == [x[q..c] + Split(x[c..], sep)[0]] + Split(x[c..], sep)[1..]
    decreases c - q
  {
    var r := Split(x[c..], sep);
    if q == c {
      assert x[q..c] + r[0] == r[0];
      assert [r[0]] + r[1..] == r;
    } else {
      assert !IsPrefix(sep, x[q..]);
      assert x[q..][1..] == x[q + 1..];
      SplitAhead(x, sep, q + 1, c);
      var t := Split(x[q + 1..], sep);
      assert t == [x[q + 1..c] + r[0]] + r[1..];
      assert t[0] == x[q + 1..c] + r[0] && t[1..] == r[1..];
      assert [x[q]] + x[q + 1..c] == x[q..c];
      assert [x[q]] + t[0] == x[q..c] + r[0];
    }
  }

  /**
   * A separator `pre + b` cannot start inside a piece `p` free of `b` that it follows: its
   * `b` would lie in `p`, straddle the end of `p` (where `pre[0]`, absent from `b`, sits) or
   * fall inside the separator before its own place (the character `b[t]` occurs neither in
   * `pre` nor earlier in `b`).
   */
  lemma NoSeparatorInPiece(p: string, pre: string, b: string, z: string, t: nat, i: nat)
    requires |pre| > 0 && pre[0] !in b && t < |b| && b[t] !in pre && b[t] !in b[..t]
    requires !Contains(p, b) && i < |p|
    ensures !IsPrefix(pre + b, (p + (pre + b) + z)[i..])
  {
    var ins := pre + b;
    var x := p + ins + z;
    var j := i + |pre|;
    if |x[i..]| >= |ins| {
      if j + |b| <= |p| {
        FindSpec(p, b);
        FindFromSpec(p, b, 0);
        assert !IsPrefix(b, p[j..]);
        assert x[i..][..|ins|][|pre|..] == p[j..][..|b|];
      } else if j < |p| {
        assert x[|p|] == pre[0];
        assert ins[|p| - i] == b[|p| - j];
        assert x[i..][|p| - i] == x[|p|];
      } else {
        var m := j + t - |p|;
        assert x[j + t] == ins[m];
        if m < |pre| {
          assert ins[m] == pre[m];
        } else {
          assert ins[m] == b[..t][m - |pre|];
        }
        assert ins[|pre| + t] == b[t];
        assert x[i..][|pre| + t] == x[j + t];
      }
    }
  }

  /** Pieces free of `b`, joined by a separator `pre + b` that cannot hide, split back into themselves. */
  lemma {:induction false} SplitJoinBack(ps: seq<string>, pre: string, b: string, t: nat)
    requires |pre| > 0 && pre[0] !in b && t < |b| && b[t] !in pre && b[t] !in b[..t]
    requires |ps| >= 1 && forall k :: 0 <= k < |ps| ==> !Contains(ps[k], b)
    ensures Split(Join(ps, pre + b), pre + b) == ps
    decreases |ps|
  {
    var ins := pre + b;
    ContainsSelf(b);
    ContainsRight(pre, b, b);
    if |ps| == 1 {
      if Contains(ps[0], ins) {
        ContainsTrans(ps[0], ins, b);
      }
      SplitCount(ps[0], ins);
      JoinSplit(ps[0], ins);
      var r := Split(ps[0], ins);
      assert r == [r[0]] && Join(r, ins) == r[0];
    } else {
      var p, rest := ps[0], Join(ps[1..], ins);
      var x := p + ins + rest;
      assert Join(ps, ins) == x;
      forall j | 0 <= j < |p|
        ensures !IsPrefix(ins, x[j..])
      {
        NoSeparatorInPiece(p, pre, b, rest, t, j);
      }
      SplitAhead(x, ins, 0, |p|);
      assert x[0..] == x && x[0..|p|] == p;
      assert x[|p|..] == ins + rest;
      assert x[|p|..][..|ins|] == ins;
      assert x[|p|..][|ins|..] == rest;
      SplitJoinBack(ps[1..], pre, b, t);
      var r := Split(x[|p|..], ins);
      assert r == [""] + ps[1..];
      assert Split(x, ins) == [p + r[0]] + r[1..];
      assert r[0] == "" && r[1..] == ps[1..] && p + r[0] == p;
      assert [p] + ps[1..] == ps;
    }
  }

  /** With two or more pieces, the joined text contains the separator. */
  lemma JoinContainsSep(ps: seq<string>, sep: string)
    requires |ps| >= 2
    ensures Contains(Join(ps, sep), sep)
  {
    ContainsSelf(sep);
    ContainsRight(ps[0], sep, sep);
    ContainsLeft(ps[0] + sep, Join(ps[1..], sep), sep);
  }

  /** `p` occurs at index `i` of `s` and at no earlier index. */
  predicate FirstAt(s: string, p: string, i: nat) {
    i + |p| <= |s| && IsPrefix(p, s[i..]) && forall j {:trigger IsPrefix(p, s[j..])} :: 0 <= j < i ==> !IsPrefix(p, s[j..])
  }

  /** The first occurrence is the one `Find` reports. */
  lemma FirstAtFind(s: string, p: string, i: nat)
    requires FirstAt(s, p, i)
    ensures Find(s, p) == Some(i)
  {
    FindFromSpec(s, p, 0);
  }

  /** What `Find` reports is the first occurrence. */
  lemma FindFirst(s: string, p: string)
    requires Find(s, p).Some?
    ensures FirstAt(s, p, Find(s, p).value)
  {
    FindFromSpec(s, p, 0);
  }

  /** JavaScript's `s.replace(p, r)` with a string pattern: only the first occurrence is replaced. */
  function ReplaceFirst(s: string, p: string, rep: string): (r: string)
    ensures !Contains(s, p) ==> r == s
    ensures Contains(s, p) ==> exists i: nat :: FirstAt(s, p, i) && r == s[..i] + rep + s[i + |p|..]
  {
    FindSpec(s, p);
    match Find(s, p)
    case None => s
    case Some(i) => s[..i] + rep + s[i + |p|..]
  }

  /** Python's `str.isspace()` for one character, which is also what `\s` matches in a `re` pattern. */
  predicate IsSpace(c: char) {
    var n := c as int;
    n == 0x20 || 0x09 <= n <= 0x0D || 0x1C <= n <= 0x1F || n == 0x85 || n == 0xA0 || n == 0x1680
    || 0x2000 <= n <= 0x200A || n == 0x2028 || n == 0x2029 || n == 0x202F || n == 0x205F || n == 0x3000
  }

  /** Where the greedy `\s*` that starts at index `q` of `s` stops. */
  function SpaceEnd(s: string, q: nat): (r: nat)
    requires q <= |s|
    ensures q <= r <= |s|
    decreases |s| - q
  {
    if q < |s| && IsSpace(s[q]) then SpaceEnd(s, q + 1) else q
  }

  /** `SpaceEnd` passes over whitespace only and stops at a non-space character or the end. */
  lemma {:induction false} SpaceEndSpec(s: string, q: nat)
    requires q <= |s|
    ensures forall k {:trigger IsSpace(s[k])} :: q <= k < SpaceEnd(s, q) ==> IsSpace(s[k])
    ensures SpaceEnd(s, q) < |s| ==> !IsSpace(s[SpaceEnd(s, q)])
    decreases |s| - q
  {
    if q < |s| && IsSpace(s[q]) {
      SpaceEndSpec(s, q + 1);
    }
  }

  /** `SpaceEnd` is the one index up to which there is whitespace only and where a non-space follows. */
  lemma {:induction false} SpaceEndIs(s: string, q: nat, r: nat)
    requires q <= r <= |s| && (r < |s| ==> !IsSpace(s[r]))
    requires forall k {:trigger IsSpace(s[k])} :: q <= k < r ==> IsSpace(s[k])
    ensures SpaceEnd(s, q) == r
    decreases r - q
  {
    if q < r {
      SpaceEndIs(s, q + 1, r);
    }
  }

  /** Whitespace runs depend only on the characters they cover and the one that stops them. */
  lemma {:induction false} SpaceEndLocal(s: string, u: string, q: nat)
    requires q <= |s| && SpaceEnd(s, q) < |s| && SpaceEnd(s, q) < |u|
    requires u[..SpaceEnd(s, q) + 1] == s[..SpaceEnd(s, q) + 1]
    ensures SpaceEnd(u, q) == SpaceEnd(s, q)
  {
    var r := SpaceEnd(s, q);
    SpaceEndSpec(s, q);
    forall k | q <= k < r ensures IsSpace(u[k]) {
      assert u[k] == u[..r + 1][k];
    }
    assert u[r] == u[..r + 1][r];
    SpaceEndIs(u, q, r);
  }

  /** An occurrence of `m` in `a + sep + b` lies within `a` or within `b` when neither can straddle the other. */
  lemma OccurrenceSide(a: string, sep: string, b: string, m: string, i: nat)
    requires |sep| > 0 && |m| > 0 && sep[0] !in m && m[0] !in sep
    requires i <= |a + sep + b| && IsPrefix(m, (a + sep + b)[i..])
    ensures i + |m| <= |a| || i >= |a| + |sep|
  {
    var x := a + sep + b;
    assert x[i] == m[0];
    assert forall j :: i <= j < i + |m| ==> x[j] == m[j - i];
    assert x[|a|] == sep[0];
  }

  /**
   * Swapping the separator of a joined text keeps an occurrence of `m` as long as neither can
   * straddle the other: the separator's first character is not in `m`, and `m`'s first
   * character is not in the separator.
   */
  lemma {:induction false} JoinKeepsContains(ps: seq<string>, sep: string, rep: string, m: string)
    requires |sep| > 0 && |m| > 0 && sep[0] !in m && m[0] !in sep
    requires Contains(Join(ps, sep), m)
    ensures Contains(Join(ps, rep), m)
  {
    if |ps| >= 2 {
      var p0, x1, y1 := ps[0], Join(ps[1..], sep), Join(ps[1..], rep);
      var x := Join(ps, sep);
      assert x == p0 + sep + x1;
      FindSpec(x, m);
      var i := Find(x, m).value;
      OccurrenceSide(p0, sep, x1, m, i);
      if i + |m| <= |p0| {
        assert p0[i..][..|m|] == x[i..][..|m|];
        ContainsAt(p0, m, i);
        ContainsLeft(p0, rep + y1, m);
        assert Join(ps, rep) == p0 + (rep + y1);
      } else {
        assert x1[i - |p0| - |sep|..][..|m|] == x[i..][..|m|];
        ContainsAt(x1, m, i - |p0| - |sep|);
        JoinKeepsContains(ps[1..], sep, rep, m);
        ContainsRight(p0 + rep, y1, m);
      }
    }
  }

}
