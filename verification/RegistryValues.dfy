/**
 * Reading and writing registry values through a `RegistryKey`
 * (RegistryKey.cpp): the buffered `QueryValue` that NUL-terminates what it
 * reads, the `GetDWORD` and `GetString` type filters, and the values
 * `SetDWORD` and `SetString` write.
 *
 * The registry is an oracle.  A value is its type and its bytes; the value
 * seen by each of the two `RegQueryValueEx` calls of the buffered query is
 * given separately, since another program may change it in between.  TCHAR
 * is the two-byte unit of the UNICODE build, stored little-endian.
 */
module RegistryValues {
  import opened Wrappers
  import opened CInt
  import opened TCharStrings

  const TCHAR_SIZE: nat := 2
  const DWORD_SIZE: nat := 4

  // Value types (winnt.h)
  const REG_SZ: dword := 1
  const REG_EXPAND_SZ: dword := 2
  const REG_DWORD: dword := 4

  type byte = x: int | 0 <= x < 256

  /** A registry value: its type and its data. */
  datatype Stored = Stored(kind: dword, data: seq<byte>)

  /** Writing past the end of a buffer of `length` bytes, at byte `offset`. */
  datatype Fault = Overrun(offset: nat, length: nat)

  // ---------------------------------------------------------------------
  // Code units and numbers as bytes

  predicate IsUnits(s: seq<int>)
  {
    forall k :: 0 <= k < |s| ==> 0 <= s[k] < 0x1_0000
  }

  /** The TCHARs of a buffer: each pair of bytes, low byte first; an odd last byte is no unit. */
  function Units(b: seq<byte>): (u: seq<int>)
    ensures |u| == |b| / 2 && IsUnits(u)
  {
    seq(|b| / 2, i requires 0 <= i < |b| / 2 => b[2 * i] as int + 256 * b[2 * i + 1] as int)
  }

  /** Two bytes per unit, low byte first. */
  function EncodeUnits(s: seq<int>): (b: seq<byte>)
    requires IsUnits(s)
    ensures |b| == TCHAR_SIZE * |s|
  {
    seq(2 * |s|, k requires 0 <= k < 2 * |s| => if k % 2 == 0 then s[k / 2] % 256 else s[k / 2] / 256)
  }

  /** Decoding what was encoded gives back the units. */
  lemma UnitsOfEncoded(s: seq<int>)
    requires IsUnits(s)
    ensures Units(EncodeUnits(s)) == s
  {
    var b := EncodeUnits(s);
    forall i | 0 <= i < |s|
      ensures Units(b)[i] == s[i]
    {
      assert b[2 * i] == s[i] % 256;
      assert b[2 * i + 1] == s[i] / 256;
    }
  }

  /** A `DWORD` in memory, low byte first. */
  function EncodeDword(n: dword): (b: seq<byte>)
    ensures |b| == DWORD_SIZE
  {
    [n % 256, n / 256 % 256, n / 0x1_0000 % 256, n / 0x100_0000]
  }

  /** `*(LPDWORD) p`: the first four bytes read as a `DWORD`. */
  function DwordOf(b: seq<byte>): (n: dword)
    requires |b| >= DWORD_SIZE
  {
    b[0] as int + 256 * b[1] as int + 0x1_0000 * b[2] as int + 0x100_0000 * b[3] as int
  }

  lemma DwordOfEncoded(n: dword, rest: seq<byte>)
    ensures DwordOf(EncodeDword(n) + rest) == n
  {
    var q1 := n / 256;
    var q2 := q1 / 256;
    var q3 := q2 / 256;
    assert n == n % 256 + 256 * q1;
    assert q1 == q1 % 256 + 256 * q2;
    assert q2 == q2 % 256 + 256 * q3;
    assert n / 0x1_0000 == q2 && n / 0x100_0000 == q3;
  }

  // ---------------------------------------------------------------------
  // Queries

  /** What one `RegQueryValueEx` call reports: the type, the size and the bytes copied. */
  datatype Answer = Answer(kind: dword, size: nat, data: seq<byte>)

  /**
   * `RegQueryValueEx` on a value that is `v` at the time of the call.  With
   * no buffer (`capacity` none) it reports the type and size only; with a
   * buffer too small for the data it fails; a missing value fails.
   */
  function Query(v: Option<Stored>, capacity: Option<nat>): (a: Option<Answer>)
    ensures a.Some? <==> v.Some? && (capacity.None? || |v.value.data| <= capacity.value)
    ensures a.Some? ==> a.value.kind == v.value.kind && a.value.size == |v.value.data|
    ensures a.Some? && capacity.Some? ==> a.value.data == v.value.data
  {
    if v.None? then None
    else if capacity.None? then Some(Answer(v.value.kind, |v.value.data|, []))
    else if |v.value.data| > capacity.value then None
    else Some(Answer(v.value.kind, |v.value.data|, v.value.data))
  }

  /**
   * The block `ByteArray::Resize(n)` hands back, `n` bytes, after the query
   * has copied `data` into its start; the rest still holds `stale`.
   */
  function Filled(data: seq<byte>, n: nat, stale: byte): (b: seq<byte>)
    requires |data| <= n
    ensures |b| == n && b[..|data|] == data
    ensures forall k :: |data| <= k < n ==> b[k] == stale
  {
    data + seq(n - |data|, _ => stale)
  }

  /** Where `((TCHAR *) alloced)[size / sizeof(TCHAR)] = 0` writes: the byte offset of that unit. */
  function TerminatorOffset(size: nat): (p: nat)
    ensures p <= size && size - p < TCHAR_SIZE && p % TCHAR_SIZE == 0
  {
    size / TCHAR_SIZE * TCHAR_SIZE
  }

  /** The two zero bytes of the terminator written at byte `p`. */
  function Terminated(b: seq<byte>, p: nat): (t: seq<byte>)
    requires p + TCHAR_SIZE <= |b|
    ensures |t| == |b| && t[p] == 0 && t[p + 1] == 0
    ensures forall k :: 0 <= k < |b| && k != p && k != p + 1 ==> t[k] == b[k]
  {
    b[p := 0][p + 1 := 0]
  }

  /**
   * The buffered `QueryValue`, as the source writes it: the size query,
   * then a buffer of `size + sizeof(TCHAR)` bytes whose whole length is
   * offered to the second query, then the terminator after the data.  When
   * the value grew between the queries the terminator can fall outside the
   * buffer.
   */
  function QueryValueAsWritten(first: Option<Stored>, second: Option<Stored>, stale: byte): (r: Result<Option<(dword, seq<byte>)>, Fault>)
    ensures first.None? || second.None? ==> r == Success(None)
    ensures r.Failure? ==> first.Some? && second.Some? && |second.value.data| > |first.value.data|
    ensures r.Success? && r.value.Some? ==> |r.value.value.1| == |first.value.data| + TCHAR_SIZE
  {
    var sized := Query(first, None);
    if sized.None? then Success(None)
    else
      var sizeWithNull := sized.value.size + TCHAR_SIZE;
      var got := Query(second, Some(sizeWithNull));
      if got.None? then Success(None)
      else
        var buffer := Filled(got.value.data, sizeWithNull, stale);
        var p := TerminatorOffset(got.value.size);
        if p + TCHAR_SIZE > |buffer| then Failure(Overrun(p, |buffer|))
        else Success(Some((got.value.kind, Terminated(buffer, p))))
  }

  /** A four-byte string that grows to six bytes between the two queries: the terminator lands on bytes 6 and 7 of a six-byte buffer. */
  lemma GrowingValueOverruns(stale: byte)
    ensures QueryValueAsWritten(Some(Stored(REG_SZ, [65, 0, 0, 0])), Some(Stored(REG_SZ, [65, 0, 66, 0, 0, 0])), stale)
      == Failure(Overrun(6, 6))
  {
  }

  /** A value that does not change between the two queries never overruns, even as written. */
  lemma StableValueFits(v: Option<Stored>, stale: byte)
    ensures QueryValueAsWritten(v, v, stale).Success?
  {
  }

  /**
   * The buffered `QueryValue` with the second query offered only the `size`
   * bytes the first one reported, so that the two bytes for the terminator
   * are always left free.  A value that grew in between is refused like any
   * value too large for its buffer.
   */
  function QueryValue(first: Option<Stored>, second: Option<Stored>, stale: byte): (r: Option<(dword, seq<byte>)>)
    ensures r.Some? <==> first.Some? && second.Some? && |second.value.data| <= |first.value.data|
    ensures r.Some? ==> r.value.0 == second.value.kind && |r.value.1| == |first.value.data| + TCHAR_SIZE
    ensures r.Some? ==> TerminatorOffset(|second.value.data|) + TCHAR_SIZE <= |r.value.1|
  {
    var sized := Query(first, None);
    if sized.None? then None
    else
      var sizeWithNull := sized.value.size + TCHAR_SIZE;
      var got := Query(second, Some(sized.value.size));
      if got.None? then None
      else
        var buffer := Filled(got.value.data, sizeWithNull, stale);
        Some((got.value.kind, Terminated(buffer, TerminatorOffset(got.value.size))))
  }

  /**
   * What the corrected query hands back is NUL-terminated: its units are
   * the whole units of the data read, then a zero.
   */
  lemma QueryValueTerminated(first: Option<Stored>, second: Option<Stored>, stale: byte)
    requires QueryValue(first, second, stale).Some?
    ensures var data := second.value.data; var u := Units(QueryValue(first, second, stale).value.1);
      |data| / 2 < |u| && u[..|data| / 2] == Units(data) && u[|data| / 2] == 0
  {
    var data := second.value.data;
    var b := QueryValue(first, second, stale).value.1;
    var n := |data| / 2;
    var p := TerminatorOffset(|data|);
    assert p == 2 * n;
    var u := Units(b);
    forall i | 0 <= i < n
      ensures u[i] == Units(data)[i]
    {
      assert b[2 * i] == data[2 * i] && b[2 * i + 1] == data[2 * i + 1];
    }
    assert u[n] == b[2 * n] + 256 * b[2 * n + 1];
  }

  /** Both the corrected and the as-written query agree whenever the value does not grow. */
  lemma QueryValueAgrees(first: Option<Stored>, second: Option<Stored>, stale: byte)
    requires first.Some? && second.Some? && |second.value.data| <= |first.value.data|
    ensures QueryValueAsWritten(first, second, stale) == Success(QueryValue(first, second, stale))
  {
  }

  /** `QueryValueAgrees` in the form the accessors use. */
  lemma QueryValueAgreesWhenStable(first: Option<Stored>, second: Option<Stored>, stale: byte)
    ensures first.Some? && second.Some? && |second.value.data| <= |first.value.data| ==>
      QueryValueAsWritten(first, second, stale) == Success(QueryValue(first, second, stale))
  {
    if first.Some? && second.Some? && |second.value.data| <= |first.value.data| {
      QueryValueAgrees(first, second, stale);
    }
  }

  // ---------------------------------------------------------------------
  // Typed accessors

  /**
   * `GetDWORD(value, errorValue)` over the corrected `QueryValue`:
   * `errorValue` unless the query succeeds
   * and the value is a `REG_DWORD`; then its first four bytes.  A
   * `REG_DWORD` of fewer than two bytes leaves a buffer shorter than a
   * `DWORD`, and reading it runs past the end.
   */
  function GetDWORD(first: Option<Stored>, second: Option<Stored>, stale: byte, errorValue: dword): (r: Result<dword, Fault>)
    ensures QueryValue(first, second, stale).None? ==> r == Success(errorValue)
    ensures QueryValue(first, second, stale).Some? && second.value.kind != REG_DWORD ==> r == Success(errorValue)
    ensures r.Success? && r.value != errorValue ==> second.Some? && second.value.kind == REG_DWORD
    ensures r.Failure? <==> QueryValue(first, second, stale).Some? && second.value.kind == REG_DWORD && |first.value.data| + TCHAR_SIZE < DWORD_SIZE
  {
    var got := QueryValue(first, second, stale);
    if got.None? then Success(errorValue)
    else if got.value.0 != REG_DWORD then Success(errorValue)
    else if |got.value.1| < DWORD_SIZE then Failure(Overrun(|got.value.1|, |got.value.1|))
    else Success(DwordOf(got.value.1))
  }

  /**
   * `GetDWORD(value, errorValue)` as the source writes it, over the
   * as-written query: an overrun of the query's buffer ends the read there.
   */
  function GetDWORDAsWritten(first: Option<Stored>, second: Option<Stored>, stale: byte, errorValue: dword): (r: Result<dword, Fault>)
    ensures QueryValueAsWritten(first, second, stale).Failure? ==> r.Failure?
    ensures first.None? || second.None? ==> r == Success(errorValue)
    ensures r.Success? && r.value != errorValue ==> second.Some? && second.value.kind == REG_DWORD
    ensures first.Some? && second.Some? && |second.value.data| <= |first.value.data| ==> r == GetDWORD(first, second, stale, errorValue)
  {
    QueryValueAgreesWhenStable(first, second, stale);
    var got :- QueryValueAsWritten(first, second, stale);
    if got.None? then Success(errorValue)
    else if got.value.0 != REG_DWORD then Success(errorValue)
    else if |got.value.1| < DWORD_SIZE then Failure(Overrun(|got.value.1|, |got.value.1|))
    else Success(DwordOf(got.value.1))
  }

  /** The `GetDWORD(subkey, value, errorValue)` overload as written: a subkey that does not open gives 0, whatever `errorValue` is. */
  function GetDWORDSubAsWritten(subOpened: bool, first: Option<Stored>, second: Option<Stored>, stale: byte, errorValue: dword): (r: Result<dword, Fault>)
    ensures subOpened ==> r == GetDWORD(first, second, stale, errorValue)
    ensures !subOpened ==> r == Success(0)
  {
    if !subOpened then Success(0) else GetDWORD(first, second, stale, errorValue)
  }

  /** With `errorValue` 7, a missing subkey reads as 0, a value the caller cannot tell from a stored 0. */
  lemma MissingSubkeyReadsZero(first: Option<Stored>, second: Option<Stored>, stale: byte)
    ensures GetDWORDSubAsWritten(false, first, second, stale, 7) == Success(0)
    ensures GetDWORDSubAsWritten(true, Some(Stored(REG_DWORD, EncodeDword(0))), Some(Stored(REG_DWORD, EncodeDword(0))), stale, 7) == Success(0)
  {
    DwordOfEncoded(0, [0, 0]);
  }

  /** The `GetDWORD(subkey, value, errorValue)` overload, corrected: a subkey that does not open gives `errorValue`, like every other failure. */
  function GetDWORDSub(subOpened: bool, first: Option<Stored>, second: Option<Stored>, stale: byte, errorValue: dword): (r: Result<dword, Fault>)
    ensures subOpened ==> r == GetDWORD(first, second, stale, errorValue)
    ensures !subOpened ==> r == Success(errorValue)
  {
    if !subOpened then Success(errorValue) else GetDWORD(first, second, stale, errorValue)
  }

  /** Through the corrected overload every failure reads as `errorValue`: any other result is a stored `REG_DWORD`. */
  lemma GetDWORDSubFailsToErrorValue(subOpened: bool, first: Option<Stored>, second: Option<Stored>, stale: byte, errorValue: dword)
    ensures var r := GetDWORDSub(subOpened, first, second, stale, errorValue);
      r.Success? && r.value != errorValue ==> subOpened && second.Some? && second.value.kind == REG_DWORD
  {
  }

  /**
   * `GetString(value, buffer)` over the corrected `QueryValue`: the string
   * read, when the query succeeds
   * and the value is a `REG_SZ` or a `REG_EXPAND_SZ`; none otherwise.  The
   * string is the units of the buffer up to the first NUL.
   */
  function GetString(first: Option<Stored>, second: Option<Stored>, stale: byte): (r: Option<seq<int>>)
    ensures r.Some? <==> QueryValue(first, second, stale).Some? && (second.value.kind == REG_SZ || second.value.kind == REG_EXPAND_SZ)
    ensures r.Some? ==> IsText(r.value) && r.value <= Units(QueryValue(first, second, stale).value.1)
  {
    var got := QueryValue(first, second, stale);
    if got.None? then None
    else if got.value.0 != REG_SZ && got.value.0 != REG_EXPAND_SZ then None
    else Some(Text(Units(got.value.1)))
  }

  /**
   * `GetString(value, buffer)` as the source writes it, over the as-written
   * query: an overrun of the query's buffer ends the read there.
   */
  function GetStringAsWritten(first: Option<Stored>, second: Option<Stored>, stale: byte): (r: Result<Option<seq<int>>, Fault>)
    ensures r.Failure? <==> QueryValueAsWritten(first, second, stale).Failure?
    ensures first.None? || second.None? ==> r == Success(None)
    ensures r.Success? && r.value.Some? ==> IsText(r.value.value) && (second.value.kind == REG_SZ || second.value.kind == REG_EXPAND_SZ)
    ensures first.Some? && second.Some? && |second.value.data| <= |first.value.data| ==> r == Success(GetString(first, second, stale))
  {
    QueryValueAgreesWhenStable(first, second, stale);
    var got :- QueryValueAsWritten(first, second, stale);
    if got.None? then Success(None)
    else if got.value.0 != REG_SZ && got.value.0 != REG_EXPAND_SZ then Success(None)
    else Success(Some(Text(Units(got.value.1))))
  }

  /** The string of `GrowingValueOverruns` read as written: `GetString` overruns instead of returning a string. */
  lemma GrowingStringOverruns(stale: byte)
    ensures GetStringAsWritten(Some(Stored(REG_SZ, [65, 0, 0, 0])), Some(Stored(REG_SZ, [65, 0, 66, 0, 0, 0])), stale)
      == Failure(Overrun(6, 6))
    ensures GetString(Some(Stored(REG_SZ, [65, 0, 0, 0])), Some(Stored(REG_SZ, [65, 0, 66, 0, 0, 0])), stale) == None
  {
    GrowingValueOverruns(stale);
  }

  /** A string read never runs past the data: it is a prefix of the units stored, the NUL written after them stopping it. */
  lemma GetStringWithinData(first: Option<Stored>, second: Option<Stored>, stale: byte)
    requires GetString(first, second, stale).Some?
    ensures GetString(first, second, stale).value <= Units(second.value.data)
  {
    var data := second.value.data;
    var u := Units(QueryValue(first, second, stale).value.1);
    QueryValueTerminated(first, second, stale);
    var t := Text(u);
    var n := |data| / 2;
    assert |t| <= n;
    assert t == u[..|t|];
    assert u[..|t|] == u[..n][..|t|];
  }

  /** `SetDWORD(value, number)`: a `REG_DWORD` of the number's four bytes. */
  function SetDWORD(n: dword): (v: Stored)
    ensures v.kind == REG_DWORD && |v.data| == DWORD_SIZE
  {
    Stored(REG_DWORD, EncodeDword(n))
  }

  /**
   * `SetString(value, string, type)`: the string's units and its
   * terminator, `(lstrlen(string) + 1) * sizeof(TCHAR)` bytes.
   */
  function SetString(s: seq<int>, kind: dword): (v: Stored)
    requires IsText(s) && IsUnits(s)
    ensures v.kind == kind && |v.data| == (|s| + 1) * TCHAR_SIZE
    ensures Units(v.data) == s + [0]
  {
    assert IsUnits(s + [0]);
    UnitsOfEncoded(s + [0]);
    Stored(kind, EncodeUnits(s + [0]))
  }

  /** A DWORD written with `SetDWORD` reads back with `GetDWORD`. */
  lemma DwordRoundTrip(n: dword, stale: byte, errorValue: dword)
    ensures GetDWORD(Some(SetDWORD(n)), Some(SetDWORD(n)), stale, errorValue) == Success(n)
  {
    var b := QueryValue(Some(SetDWORD(n)), Some(SetDWORD(n)), stale).value.1;
    assert b[..DWORD_SIZE] == EncodeDword(n);
    assert b == EncodeDword(n) + b[DWORD_SIZE..];
    DwordOfEncoded(n, b[DWORD_SIZE..]);
  }

  /** A string written with `SetString` as a `REG_SZ` or `REG_EXPAND_SZ` reads back with `GetString`. */
  lemma StringRoundTrip(s: seq<int>, kind: dword, stale: byte)
    requires IsText(s) && IsUnits(s) && (kind == REG_SZ || kind == REG_EXPAND_SZ)
    ensures GetString(Some(SetString(s, kind)), Some(SetString(s, kind)), stale) == Some(s)
  {
    var v := SetString(s, kind);
    QueryValueTerminated(Some(v), Some(v), stale);
    var u := Units(QueryValue(Some(v), Some(v), stale).value.1);
    var n := |v.data| / 2;
    assert u[..n] == s + [0];
    assert u == s + [0] + u[n..];
    TextOfTerminated(s, u[n..]);
  }

  /** A value of another type is never read as a string, nor as a number. */
  lemma TypeFilters(v: Stored, stale: byte, errorValue: dword)
    requires v.kind != REG_SZ && v.kind != REG_EXPAND_SZ && v.kind != REG_DWORD
    ensures GetString(Some(v), Some(v), stale).None?
    ensures GetDWORD(Some(v), Some(v), stale, errorValue) == Success(errorValue)
  {
  }
}
