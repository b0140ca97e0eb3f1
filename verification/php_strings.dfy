/** The PHP string built-ins the autoloader relies on (`rtrim`, `trim`,
    `strrpos`, `str_replace`), each restricted to the single-character form
    the autoloader uses, over strings modelled as sequences of characters.
    `LTrim` is the helper `Trim` is built from.
 */
module PhpStrings {

  /** The result of `strrpos`: PHP answers `false` when the needle is absent. */
  datatype Position = NotFound | At(index: nat)

  /** `r` is what is left of `s` once every `c` at its end is removed. */
  ghost predicate IsRTrimOf(s: string, c: char, r: string) {
    && |r| <= |s| && r == s[..|r|]
    && (forall i :: |r| <= i < |s| ==> s[i] == c)
    && (|r| == 0 || r[|r| - 1] != c)
  }

  /** `r` is what is left of `s` once every `c` at its start is removed. */
  ghost predicate IsLTrimOf(s: string, c: char, r: string) {
    && |r| <= |s| && r == s[|s| - |r|..]
    && (forall i :: 0 <= i < |s| - |r| ==> s[i] == c)
    && (|r| == 0 || r[0] != c)
  }

  /** `r` is the slice of `s` that starts at `lead`, with nothing but `c`
      on either side of it, and neither starting nor ending with `c`. */
  ghost predicate IsTrimOfAt(s: string, c: char, r: string, lead: int) {
    && 0 <= lead && lead + |r| <= |s| && r == s[lead..lead + |r|]
    && (forall i :: 0 <= i < lead ==> s[i] == c)
    && (forall i :: lead + |r| <= i < |s| ==> s[i] == c)
    && (|r| == 0 || (r[0] != c && r[|r| - 1] != c))
  }

  /** Where the run of `c` that ends just before position `n` of `s` starts:
      `s[m..n]` is all `c`, and the character before it, if any, is not. */
  function RunStart(s: string, c: char, n: nat): (m: nat)
    requires n <= |s|
    ensures m <= n
    ensures forall i :: m <= i < n ==> s[i] == c
    ensures m == 0 || s[m - 1] != c
    decreases n
  {
    if n > 0 && s[n - 1] == c then RunStart(s, c, n - 1) else n
  }

  /** Where the run of `c` that starts at position `n` of `s` ends:
      `s[n..m]` is all `c`, and the character after it, if any, is not. */
  function RunEnd(s: string, c: char, n: nat): (m: nat)
    requires n <= |s|
    ensures n <= m <= |s|
    ensures forall i :: n <= i < m ==> s[i] == c
    ensures m == |s| || s[m] != c
    decreases |s| - n
  {
    if n < |s| && s[n] == c then RunEnd(s, c, n + 1) else n
  }

  /** `rtrim(s, c)`: removes every trailing `c`. */
  function RTrim(s: string, c: char): (r: string)
    ensures IsRTrimOf(s, c, r)
  {
    s[..RunStart(s, c, |s|)]
  }

  /** `ltrim(s, c)`: removes every leading `c`. */
  function LTrim(s: string, c: char): (r: string)
    ensures IsLTrimOf(s, c, r)
  {
    s[RunEnd(s, c, 0)..]
  }

  /** `trim(s, c)`: removes every `c` at either end. */
  function Trim(s: string, c: char): (r: string)
    ensures |r| <= |RTrim(s, c)|
    ensures IsTrimOfAt(s, c, r, |RTrim(s, c)| - |r|)
  {
    LTrim(RTrim(s, c), c)
  }

  /** The position of the last `c` among the first `n` characters of `s`. */
  function LastBefore(s: string, c: char, n: nat): (p: Position)
    requires n <= |s|
    ensures p.NotFound? <==> forall i :: 0 <= i < n ==> s[i] != c
    ensures p.At? ==> p.index < n && s[p.index] == c
    ensures p.At? ==> forall i :: p.index < i < n ==> s[i] != c
    decreases n
  {
    if n == 0 then NotFound
    else if s[n - 1] == c then At(n - 1)
    else LastBefore(s, c, n - 1)
  }

  /** `strrpos(s, c)`: the position of the last `c` in `s`, if any. */
  function StrRPos(s: string, c: char): (p: Position)
    ensures p.NotFound? <==> forall i :: 0 <= i < |s| ==> s[i] != c
    ensures p.At? ==> p.index < |s| && s[p.index] == c
    ensures p.At? ==> forall i :: p.index < i < |s| ==> s[i] != c
  {
    LastBefore(s, c, |s|)
  }

  /** `n` copies of `c`. */
  function Repeat(c: char, n: nat): (s: string)
    ensures |s| == n && forall i :: 0 <= i < n ==> s[i] == c
  {
    seq(n, _ => c)
  }

  /** `str_replace(from, to, s)` for single characters: every `from` becomes
      `to`, every other character stays where it is. */
  function StrReplace(s: string, from: char, to: char): (r: string)
    ensures |r| == |s|
    ensures forall i :: 0 <= i < |s| ==> r[i] == (if s[i] == from then to else s[i])
    ensures from != to ==> forall i :: 0 <= i < |r| ==> r[i] != from
  {
    if |s| == 0 then []
    else [if s[0] == from then to else s[0]] + StrReplace(s[1..], from, to)
  }

  /** The three conditions of `IsRTrimOf` pin the result down: `RTrim` is the
      only string that meets them. */
  lemma RTrimUnique(s: string, c: char, r: string)
    requires IsRTrimOf(s, c, r)
    ensures r == RTrim(s, c)
  {
    var t := RTrim(s, c);
    assert |r| == 0 || s[|r| - 1] != c;
    assert |t| == 0 || s[|t| - 1] != c;
    assert |r| == |t|;
  }

  /** Likewise `LTrim` is the only string meeting `IsLTrimOf`. */
  lemma LTrimUnique(s: string, c: char, r: string)
    requires IsLTrimOf(s, c, r)
    ensures r == LTrim(s, c)
  {
    var t := LTrim(s, c);
    assert |r| == 0 || s[|s| - |r|] != c;
    assert |t| == 0 || s[|s| - |t|] != c;
    assert |r| == |t|;
  }

  /** Likewise `Trim` is the only string meeting `IsTrimOfAt`, whatever the
      position it starts at. */
  lemma TrimUnique(s: string, c: char, r: string, lead: int)
    requires IsTrimOfAt(s, c, r, lead)
    ensures r == Trim(s, c)
  {
    if |r| == 0 {
      assert IsRTrimOf(s, c, []);
      RTrimUnique(s, c, []);
    } else {
      var kept := s[..lead + |r|];
      assert IsRTrimOf(s, c, kept);
      RTrimUnique(s, c, kept);
      assert r == kept[|kept| - |r|..];
      assert IsLTrimOf(kept, c, r);
      LTrimUnique(kept, c, r);
    }
  }

  /** `strrpos` on the first `k` characters of `s` finds what `LastBefore`
      finds on `s` itself. */
  lemma StrRPosOfPrefix(s: string, c: char, k: nat)
    requires k <= |s|
    ensures StrRPos(s[..k], c) == LastBefore(s, c, k)
  {
    var p := StrRPos(s[..k], c);
    var q := LastBefore(s, c, k);
    assert forall i :: 0 <= i < k ==> s[..k][i] == s[i];
    if p.At? && q.At? {
      assert p.index <= q.index;
      assert q.index <= p.index;
    }
  }

  /** `rtrim` on the first `k` characters of `s` keeps exactly the part before
      the run of `c` that ends at `k`. */
  lemma RTrimOfPrefix(s: string, c: char, k: nat)
    requires k <= |s|
    ensures RTrim(s[..k], c) == s[..RunStart(s, c, k)]
  {
    var m := RunStart(s, c, k);
    var r := s[..m];
    assert r == s[..k][..m];
    assert IsRTrimOf(s[..k], c, r);
    RTrimUnique(s[..k], c, r);
  }

  /** A trailing `c` added to `s` is trimmed away again. */
  lemma RTrimIgnoresAppended(s: string, c: char)
    ensures RTrim(s + [c], c) == RTrim(s, c)
  {
    var r := RTrim(s, c);
    assert r == (s + [c])[..|r|];
    assert IsRTrimOf(s + [c], c, r);
    RTrimUnique(s + [c], c, r);
  }

  /** Any number of trailing `c` added to `s` are trimmed away again. */
  lemma {:induction false} RTrimIgnoresRepeated(s: string, c: char, n: nat)
    ensures RTrim(s + Repeat(c, n), c) == RTrim(s, c)
  {
    if n == 0 {
      assert s + Repeat(c, n) == s;
    } else {
      var shorter := s + Repeat(c, n - 1);
      assert s + Repeat(c, n) == shorter + [c];
      RTrimIgnoresAppended(shorter, c);
      RTrimIgnoresRepeated(s, c, n - 1);
    }
  }

  /** A leading `c` added to `s` is trimmed away again. */
  lemma LTrimIgnoresPrepended(s: string, c: char)
    ensures LTrim([c] + s, c) == LTrim(s, c)
  {
    var r := LTrim(s, c);
    var cs := [c] + s;
    assert r == cs[|cs| - |r|..];
    assert IsLTrimOf(cs, c, r);
    LTrimUnique(cs, c, r);
  }

  /** `rtrim` leaves alone a string that does not end in `c`; `ltrim` one that
      does not start with `c`. */
  lemma TrimLeavesCleanEnds(s: string, c: char)
    ensures |s| == 0 || s[|s| - 1] != c ==> RTrim(s, c) == s
    ensures |s| == 0 || s[0] != c ==> LTrim(s, c) == s
  {
    if |s| == 0 || s[|s| - 1] != c {
      assert IsRTrimOf(s, c, s);
      RTrimUnique(s, c, s);
    }
    if |s| == 0 || s[0] != c {
      assert IsLTrimOf(s, c, s);
      LTrimUnique(s, c, s);
    }
  }

  /** A leading `c` in front of `s` survives `rtrim` unless everything is trimmed. */
  lemma RTrimOfPrepended(s: string, c: char)
    ensures RTrim([c] + s, c) == if RTrim(s, c) == [] then [] else [c] + RTrim(s, c)
  {
    var t := RTrim(s, c);
    var cs := [c] + s;
    if t == [] {
      assert IsRTrimOf(cs, c, []);
      RTrimUnique(cs, c, []);
    } else {
      var r := [c] + t;
      assert r == cs[..|r|];
      assert forall i :: |r| <= i < |cs| ==> cs[i] == s[i - 1];
      assert IsRTrimOf(cs, c, r);
      RTrimUnique(cs, c, r);
    }
  }
}
