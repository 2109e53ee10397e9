/**
 * C strings and the fixed-capacity `char` fields both emulators copy them
 * into with `strncpy(field, src, sizeof(field) - 1)`.
 *
 * A C string is modelled by its content, the bytes before its terminating
 * NUL. A field is modelled by all of its bytes; reading it back as a C string
 * either finds a NUL inside the field or does not, in which case a C reader
 * would run past the end of the field.
 */
module CStrings {
  import opened Wrappers

  /** An 8-bit unsigned value (`uint8_t`, `unsigned char`). */
  newtype byte = b: int | 0 <= b < 256

  /** No byte of `s` is NUL. */
  predicate NoNul(s: seq<byte>) {
    forall i | 0 <= i < |s| :: s[i] != 0
  }

  /** The content of a NUL-terminated string; its length is what `strlen` returns. */
  type CString = s: seq<byte> | NoNul(s) witness []

  /** `n` zero bytes. */
  function Zeros(n: nat): (z: seq<byte>)
    ensures |z| == n
    ensures forall i | 0 <= i < n :: z[i] == 0
  {
    seq(n, _ => 0)
  }

  /** The first `n` characters of `s`, or all of them when `s` is shorter. */
  function Truncate(s: CString, n: nat): (t: CString)
    ensures |t| == if |s| < n then |s| else n
    ensures t == s[..|t|]
  {
    if |s| <= n then s else s[..n]
  }

  /** The `n` bytes that `strncpy(dst, src, n)` writes at the start of `dst`:
      the characters of `src` up to `n`, then NUL padding up to `n`. */
  function NCopy(src: CString, n: nat): (w: seq<byte>)
    ensures |w| == n
    ensures forall i | 0 <= i < n :: w[i] == if i < |src| then src[i] else 0
  {
    Truncate(src, n) + Zeros(n - |Truncate(src, n)|)
  }

  /** What a C reader (`printf("%s")`, `strlen`, `inet_addr`) sees in a field:
      the bytes before the first NUL, or `None` when the field holds no NUL. */
  function ReadCString(field: seq<byte>): (r: Option<CString>)
    ensures r.None? <==> NoNul(field)
    ensures r.Some? ==> |r.value| < |field| && field[|r.value|] == 0 && r.value == field[..|r.value|]
  {
    if |field| == 0 then None
    else if field[0] == 0 then Some([])
    else match ReadCString(field[1..])
      case None => None
      case Some(rest) => Some([field[0]] + rest)
  }

  /** A terminator right after a NUL-free prefix ends the read there, whatever follows. */
  lemma ReadStopsAtFirstNul(s: CString, rest: seq<byte>)
    ensures ReadCString(s + [0] + rest) == Some(s)
  {
    var f := s + [0] + rest;
    assert f[|s|] == 0;
    assert f[..|s|] == s;
  }

  /** The string a field filled by `StoreField` reads back as: the source
      intact when it is shorter than `capacity - 1`; otherwise its first
      `capacity - 1` characters if the untouched final byte happens to be NUL,
      and no terminated string at all if it is not. */
  function ReadBack(src: CString, capacity: nat, last: byte): Option<CString>
    requires capacity >= 1
  {
    if |src| < capacity - 1 || last == 0 then Some(Truncate(src, capacity - 1)) else None
  }

  /** `n` bytes written by `strncpy(field, src, n)` followed by one byte
      `last` read back as `ReadBack(src, n + 1, last)`. */
  lemma CopyThenByteReadsBack(src: CString, n: nat, last: byte)
    ensures ReadCString(NCopy(src, n) + [last]) == ReadBack(src, n + 1, last)
  {
    var f := NCopy(src, n) + [last];
    if |src| < n {
      assert f == src + [0] + f[|src| + 1..];
      ReadStopsAtFirstNul(src, f[|src| + 1..]);
    } else {
      assert f[..n] == src[..n];
      if last == 0 {
        assert f == Truncate(src, n) + [0] + [];
        ReadStopsAtFirstNul(Truncate(src, n), []);
      } else {
        forall i | 0 <= i < |f| ensures f[i] != 0 {
          if i < n { assert f[i] == src[i]; }
        }
      }
    }
  }

  /** A field of `capacity` bytes after `strncpy(field, src, capacity - 1)`:
      `strncpy` writes every byte but the last, which keeps whatever the field
      held before (`last`), so the field reads back as `ReadBack`: the source
      when it is shorter than `capacity - 1`, its first `capacity - 1`
      characters when the final byte is NUL, and unterminated otherwise. */
  function StoreField(src: CString, capacity: nat, last: byte): (f: seq<byte>)
    requires capacity >= 1
    ensures |f| == capacity
    ensures f[..capacity - 1] == NCopy(src, capacity - 1)
    ensures f[capacity - 1] == last
    ensures ReadCString(f) == ReadBack(src, capacity, last)
  {
    CopyThenByteReadsBack(src, capacity - 1, last);
    NCopy(src, capacity - 1) + [last]
  }

  /** Any string read back from a stored field has at most `capacity - 1` characters. */
  lemma StoredFieldBounded(src: CString, capacity: nat, last: byte)
    requires capacity >= 1
    ensures match ReadCString(StoreField(src, capacity, last))
      case Some(s) => |s| <= capacity - 1
      case None => |src| >= capacity - 1 && last != 0
  {
  }
}
