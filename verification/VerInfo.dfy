/**
 * `VerInfo` (VerInfo.cpp): reading a module's version resource into four
 * version numbers and three strings.
 *
 * The version resource is an oracle: its reported size, whether it can be
 * read, the fixed file info's two version words, the translation entry and
 * the strings the `\StringFileInfo\llllcccc\Name` queries find.
 */
module VerInfo {
  import opened Wrappers
  import opened TCharStrings
  import opened CInt

  type word = x: int | 0 <= x < 0x1_0000

  /** Each string field is an array of 1024 TCHARs. */
  const FIELD_LENGTH: nat := 1024

  /** `GetModuleFileName`'s buffer, 2048 TCHARs. */
  const PATH_LENGTH: nat := 2048

  /** `_version`, `_title`, `_copyright` and `_comments`. */
  datatype Info = Info(version: seq<int>, title: seq<int>, copyright: seq<int>, comments: seq<int>)

  /** A module's version resource, as the version API reports it. */
  datatype Resource = Resource(
    size: nat,
    readable: bool,
    fixed: Option<(dword, dword)>,
    translation: Option<(word, word)>,
    strings: map<string, seq<int>>)

  /** `lstrcpy` of a string that does not fit its 1024-TCHAR field. */
  datatype Fault = FieldOverflow(name: string, length: nat)

  /** `VerInfo()`: every version number -1, every string empty. */
  function NewInfo(): (v: Info)
    ensures |v.version| == 4 && forall k :: 0 <= k < 4 ==> v.version[k] == -1
    ensures v.title == v.copyright == v.comments == []
  {
    Info([-1, -1, -1, -1], [], [], [])
  }

  /** The four version numbers: the high and low words of `dwFileVersionMS`, then of `dwFileVersionLS` (`>> 16` and `& 0xffff`). */
  function Unpack(ms: dword, ls: dword): (v: seq<int>)
    ensures |v| == 4 && forall k :: 0 <= k < 4 ==> 0 <= v[k] < 0x1_0000
  {
    [ms / 0x1_0000, ms % 0x1_0000, ls / 0x1_0000, ls % 0x1_0000]
  }

  /** The two numbers of a version word put back together: `(hi << 16) | lo`, the bits of `hi` and `lo` being disjoint. */
  function Pack(hi: word, lo: word): dword
  {
    hi * 0x1_0000 + lo
  }

  /** Unpacking loses nothing: each pair of version numbers packs back into its word. */
  lemma PackUnpack(ms: dword, ls: dword)
    ensures var v := Unpack(ms, ls); Pack(v[0], v[1]) == ms && Pack(v[2], v[3]) == ls
  {
  }

  // ---------------------------------------------------------------------
  // The string queries

  function HexDigit(d: nat): (c: char)
    requires d < 16
    ensures HexValue(c) == d
  {
    if d < 10 then ('0' as int + d) as char else ('a' as int + d - 10) as char
  }

  /** The value of a lower-case hex digit, -1 for any other character. */
  function HexValue(c: char): int
  {
    if '0' <= c <= '9' then c as int - '0' as int
    else if 'a' <= c <= 'f' then c as int - 'a' as int + 10
    else -1
  }

  /** `%04x`: four lower-case hex digits, most significant first. */
  function Hex4(n: word): (s: string)
    ensures |s| == 4
  {
    [HexDigit(n / 0x1000), HexDigit(n / 0x100 % 16), HexDigit(n / 0x10 % 16), HexDigit(n % 16)]
  }

  /** The number four hex digits denote. */
  function HexNumber(s: string): int
    requires |s| == 4
  {
    ((HexValue(s[0]) * 16 + HexValue(s[1])) * 16 + HexValue(s[2])) * 16 + HexValue(s[3])
  }

  /** `%04x` prints the word, and only it. */
  lemma HexNumberOfHex4(n: word)
    ensures HexNumber(Hex4(n)) == n
  {
    var q1 := n / 16;
    var q2 := q1 / 16;
    assert n == q1 * 16 + n % 16;
    assert q1 == q2 * 16 + q1 % 16;
    assert q2 == (q2 / 16) * 16 + q2 % 16;
    assert n / 0x100 == q2 && n / 0x1000 == q2 / 16 && n / 0x10 == q1;
  }

  /** Different words print differently. */
  lemma Hex4Injective(a: word, b: word)
    requires Hex4(a) == Hex4(b)
    ensures a == b
  {
    HexNumberOfHex4(a);
    HexNumberOfHex4(b);
  }

  /** The query path of string `name` for a translation: `\StringFileInfo\`, then language and code page in hex, then the name. */
  function StringPath(language: word, codepage: word, name: string): (p: string)
    ensures |p| == 25 + |name|
    ensures p[16..20] == Hex4(language) && p[20..24] == Hex4(codepage) && p[25..] == name
  {
    "\\StringFileInfo\\" + Hex4(language) + Hex4(codepage) + "\\" + name
  }

  /** Queries for different translations or names go to different paths. */
  lemma StringPathInjective(l1: word, c1: word, n1: string, l2: word, c2: word, n2: string)
    requires StringPath(l1, c1, n1) == StringPath(l2, c2, n2)
    ensures l1 == l2 && c1 == c2 && n1 == n2
  {
    Hex4Injective(l1, l2);
    Hex4Injective(c1, c2);
  }

  /**
   * One string query: the field keeps its value when the query finds
   * nothing, otherwise takes the string found, up to its first NUL; a
   * string of 1024 units or more overflows the field.
   */
  function CopyString(field: seq<int>, found: Option<seq<int>>, name: string): (r: Result<seq<int>, Fault>)
    ensures found.None? ==> r == Success(field)
    ensures found.Some? && |Text(found.value)| < FIELD_LENGTH ==> r == Success(Text(found.value))
    ensures found.Some? && |Text(found.value)| >= FIELD_LENGTH ==> r.Failure?
  {
    if found.None? then Success(field)
    else
      var s := Text(found.value);
      if |s| >= FIELD_LENGTH then Failure(FieldOverflow(name, |s|)) else Success(s)
  }

  function Lookup(strings: map<string, seq<int>>, path: string): Option<seq<int>>
  {
    if path in strings then Some(strings[path]) else None
  }

  /**
   * `Read(filename)`.  A resource of size 0, or one that cannot be read,
   * gives false and leaves everything as it was.  Otherwise the result is
   * true: the version numbers are replaced when the root block has a fixed
   * file info, and the strings when there is a translation entry and the
   * string is found.
   */
  function Read(v: Info, res: Resource): (r: Result<(Info, bool), Fault>)
    ensures res.size == 0 || !res.readable ==> r == Success((v, false))
    ensures r.Success? && res.size > 0 && res.readable ==> r.value.1
    ensures r.Failure? ==> res.size > 0 && res.readable && res.translation.Some?
    ensures r.Success? && res.fixed.None? ==> r.value.0.version == v.version
    ensures r.Success? && r.value.1 && res.fixed.Some? ==> r.value.0.version == Unpack(res.fixed.value.0, res.fixed.value.1)
    ensures r.Success? && res.translation.None? ==> r.value.0.title == v.title && r.value.0.copyright == v.copyright && r.value.0.comments == v.comments
  {
    if res.size == 0 then Success((v, false))
    else if !res.readable then Success((v, false))
    else
      var version := if res.fixed.Some? then Unpack(res.fixed.value.0, res.fixed.value.1) else v.version;
      if res.translation.None? then Success((v.(version := version), true))
      else
        var (language, codepage) := res.translation.value;
        var title :- CopyString(v.title, Lookup(res.strings, StringPath(language, codepage, "FileDescription")), "FileDescription");
        var copyright :- CopyString(v.copyright, Lookup(res.strings, StringPath(language, codepage, "LegalCopyright")), "LegalCopyright");
        var comments :- CopyString(v.comments, Lookup(res.strings, StringPath(language, codepage, "Comments")), "Comments");
        Success((Info(version, title, copyright, comments), true))
  }

  /**
   * `ReadCurrentModule`: the path `GetModuleFileName` reports, `length`
   * units, is refused when empty or when it filled the 2048-TCHAR buffer.
   */
  function ReadCurrentModule(v: Info, length: nat, res: Resource): (r: Result<(Info, bool), Fault>)
    ensures length == 0 || length >= PATH_LENGTH ==> r == Success((v, false))
    ensures 0 < length < PATH_LENGTH ==> r == Read(v, res)
  {
    if length == 0 || length >= PATH_LENGTH then Success((v, false)) else Read(v, res)
  }

  /** A read resource with a fixed file info leaves version numbers that pack back into its two words. */
  lemma ReadVersion(v: Info, res: Resource)
    requires res.size > 0 && res.readable && res.fixed.Some?
    requires Read(v, res).Success?
    ensures var w := Read(v, res).value.0.version;
      |w| == 4 &&
      (forall k :: 0 <= k < 4 ==> 0 <= w[k] < 0x1_0000) &&
      Pack(w[0], w[1]) == res.fixed.value.0 && Pack(w[2], w[3]) == res.fixed.value.1
  {
    PackUnpack(res.fixed.value.0, res.fixed.value.1);
  }

  /** Without a root block a fresh `VerInfo` still reads successfully, its version left at -1. */
  lemma NoRootBlockKeepsMinusOne(res: Resource)
    requires res.size > 0 && res.readable && res.fixed.None? && res.translation.None?
    ensures Read(NewInfo(), res) == Success((NewInfo(), true))
  {
  }

  /** Each string comes from its own query path: the title is what `FileDescription` finds for the module's translation. */
  lemma ReadTitle(v: Info, res: Resource)
    requires res.size > 0 && res.readable && res.translation.Some?
    requires Read(v, res).Success?
    ensures var path := StringPath(res.translation.value.0, res.translation.value.1, "FileDescription");
      Read(v, res).value.0.title == (if path in res.strings then Text(res.strings[path]) else v.title)
  {
  }
}
