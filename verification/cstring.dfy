/** kernel/lib/string.c: copies and searches over bytes and NUL-terminated strings. */
module CString {
  import opened Machine

  /** The NUL-terminated string `s` starts at offset `p` of `m`. */
  ghost predicate StringAt(m: Bytes, p: nat, s: Bytes) {
    p + |s| < |m| && m[p + |s|] == 0 && forall i | 0 <= i < |s| :: s[i] == m[p + i] && s[i] != 0
  }

  /** `m` with `count` elements copied from offset `s` to offset `d`. */
  ghost predicate Moved<T>(was: seq<T>, now: seq<T>, d: nat, s: nat, count: nat)
    requires d + count <= |was| && s + count <= |was|
  {
    && |now| == |was|
    && forall i | 0 <= i < |was| :: now[i] == was[if d <= i < d + count then s + i - d else i]
  }

  /** Copying upwards never reads a cell already written when the target lies below. */
  lemma MoveUp<T>(was: seq<T>, now: seq<T>, d: nat, s: nat, k: nat)
    requires d < s && d + k < |was| && s + k < |was| && Moved(was, now, d, s, k)
    ensures Moved(was, now[d + k := now[s + k]], d, s, k + 1)
  {
  }

  /** Copying downwards never does when the target does not. */
  lemma MoveDown<T>(was: seq<T>, now: seq<T>, d: nat, s: nat, k: nat, count: nat)
    requires s <= d && k < count && d + count <= |was| && s + count <= |was|
    requires Moved(was, now, d + k + 1, s + k + 1, count - k - 1)
    ensures Moved(was, now[d + k := now[s + k]], d + k, s + k, count - k)
  {
  }

  /** `memmove` inside one buffer: correct for any overlap. */
  method MemMove<T>(a: array<T>, d: nat, s: nat, count: nat)
    requires d + count <= a.Length && s + count <= a.Length
    modifies a
    ensures Moved(old(a[..]), a[..], d, s, count)
  {
    ghost var was := a[..];
    if d < s {
      for k := 0 to count
        invariant Moved(was, a[..], d, s, k)
      {
        MoveUp(was, a[..], d, s, k);
        ghost var now := a[..];
        a[d + k] := a[s + k];
        assert a[..] == now[d + k := now[s + k]];
      }
    } else {
      for k := count downto 0
        invariant Moved(was, a[..], d + k, s + k, count - k)
      {
        MoveDown(was, a[..], d, s, k, count);
        ghost var now := a[..];
        a[d + k] := a[s + k];
        assert a[..] == now[d + k := now[s + k]];
      }
    }
  }

  /** `strlen`. */
  method StrLen(m: Bytes, p: nat, ghost s: Bytes) returns (len: nat)
    requires StringAt(m, p, s)
    ensures len == |s|
  {
    len := 0;
    CharAt(m, p, s, 0);
    while m[p + len] != 0
      invariant len <= |s| && m[p + len] == if len < |s| then s[len] else 0
      invariant len < |s| ==> s[len] != 0
      decreases |s| - len
    {
      len := len + 1;
      CharAt(m, p, s, len);
    }
  }

  /** Lexicographic order of byte strings. */
  predicate Before(a: Bytes, b: Bytes) {
    b != [] && (a == [] || a[0] < b[0] || (a[0] == b[0] && Before(a[1..], b[1..])))
  }

  /** `strcmp`: zero exactly for equal strings, negative exactly when the first comes before. */
  method StrCmp(m: Bytes, p: nat, n: Bytes, q: nat, ghost s: Bytes, ghost t: Bytes) returns (r: int)
    requires StringAt(m, p, s) && StringAt(n, q, t)
    ensures r == 0 <==> s == t
    ensures r < 0 <==> Before(s, t)
  {
    var i := 0;
    CharAt(m, p, s, 0);
    CharAt(n, q, t, 0);
    while m[p + i] != 0 && m[p + i] == n[q + i]
      invariant i <= |s| && i <= |t| && s[..i] == t[..i]
      invariant Before(s, t) == Before(s[i..], t[i..])
      invariant m[p + i] == (if i < |s| then s[i] else 0) && n[q + i] == (if i < |t| then t[i] else 0)
      decreases |s| - i
    {
      assert s[i..][1..] == s[i + 1..] && t[i..][1..] == t[i + 1..];
      assert s[..i + 1] == s[..i] + [s[i]] && t[..i + 1] == t[..i] + [t[i]];
      i := i + 1;
      CharAt(m, p, s, i);
      CharAt(n, q, t, i);
    }
    r := m[p + i] as int - n[q + i] as int;
    assert s == s[..i] + s[i..] && t == t[..i] + t[i..];
  }

  lemma CharAt(m: Bytes, p: nat, s: Bytes, i: nat)
    requires StringAt(m, p, s) && i <= |s|
    ensures p + |s| < |m|
    ensures m[p + i] == if i < |s| then s[i] else 0
    ensures i < |s| ==> s[i] != 0
  {
  }

  /** `strchr`: the offset of the first occurrence, the terminator counting as a character. */
  method StrChr(m: Bytes, p: nat, c: u8, ghost s: Bytes) returns (at: Option<nat>)
    requires StringAt(m, p, s)
    ensures at.None? <==> c !in s + [0]
    ensures at.Some? ==>
      p <= at.value <= p + |s| && (s + [0])[at.value - p] == c && c !in (s + [0])[..at.value - p]
  {
    var i := p;
    CharAt(m, p, s, 0);
    while m[i] != 0
      invariant p <= i <= p + |s| && c !in s[..i - p]
      invariant m[i] == (if i - p < |s| then s[i - p] else 0) && (i - p < |s| ==> s[i - p] != 0)
      decreases p + |s| - i
    {
      if m[i] == c {
        assert (s + [0])[..i - p] == s[..i - p];
        return Some(i);
      }
      assert s[..i - p + 1] == s[..i - p] + [s[i - p]];
      i := i + 1;
      CharAt(m, p, s, i - p);
    }
    assert s[..i - p] == s == (s + [0])[..i - p];
    return if c == 0 then Some(i) else None;
  }

  /** What `strncpy` leaves in the buffer: a source shorter than `n` is padded to `n + 1` bytes. */
  ghost predicate Copied(was: Bytes, now: Bytes, s: Bytes, n: nat) {
    && |now| == |was|
    && if |s| < n then
         n + 1 <= |was| && now[..|s|] == s && (forall k | |s| <= k <= n :: now[k] == 0) && now[n + 1..] == was[n + 1..]
       else
         n <= |was| && now[..n] == s[..n] && now[n..] == was[n..]
  }

  /** `strncpy`. */
  method StrNCpy(dest: array<u8>, m: Bytes, p: nat, n: nat, ghost s: Bytes)
    requires StringAt(m, p, s) && (if |s| < n then n + 1 else n) <= dest.Length
    modifies dest
    ensures Copied(old(dest[..]), dest[..], s, n)
  {
    ghost var was := dest[..];
    var d, left, more := 0, n, n > 0;
    while more
      invariant 0 <= left <= n && (more ==> left > 0 && d == n - left && d <= |s|)
      invariant !more ==> (left == 0 && d == n <= |s|) || (d == |s| + 1 && left == n - |s| > 0)
      invariant d <= dest.Length && Filled(dest[..], s, d) && Untouched(was, dest[..], d)
      decreases left, more
    {
      CharAt(m, p, s, d);
      dest[d] := m[p + d];
      if dest[d] != 0 {
        left := left - 1;
        more := left > 0;
      } else {
        more := false;
      }
      d := d + 1;
    }
    while left > 0
      invariant 0 <= left && d + left == (if |s| < n then n + 1 else n) && d <= dest.Length
      invariant left > 0 ==> d > |s|
      invariant Filled(dest[..], s, d) && Untouched(was, dest[..], d)
    {
      dest[d] := 0;
      d := d + 1;
      left := left - 1;
    }
    FilledIsCopied(was, dest[..], s, n);
  }

  /** The first `d` bytes are those of `s`, zeros behind it. */
  ghost predicate Filled(now: Bytes, s: Bytes, d: nat) {
    d <= |now| && forall i | 0 <= i < d :: now[i] == if i < |s| then s[i] else 0
  }

  ghost predicate Untouched(was: Bytes, now: Bytes, d: nat) {
    |now| == |was| && forall i | d <= i < |was| :: now[i] == was[i]
  }

  lemma FilledIsCopied(was: Bytes, now: Bytes, s: Bytes, n: nat)
    requires var d := if |s| < n then n + 1 else n; Filled(now, s, d) && Untouched(was, now, d)
    ensures Copied(was, now, s, n)
  {
  }
}
