/** File names as the adder handles them: C strings of bytes, the base name after the last '/',
    and the fixed 58-byte name field of a directory entry. */
module Paths {
  import opened Wire
  import opened Format

  const SLASH: byte := 0x2F

  /** The longest name a directory entry holds: one byte of the field is kept for the NUL. */
  const NAME_MAX: nat := NAME_LEN - 1

  /** A C string: bytes up to, not including, the terminating NUL. */
  type CString = s: seq<byte> | 0 !in s witness []

  /** The index of the last '/' in p, or -1 when there is none (what `strrchr` finds). */
  function LastSlash(p: seq<byte>): (r: int)
    ensures -1 <= r < |p|
  {
    if p == [] then -1
    else if p[|p| - 1] == SLASH then |p| - 1
    else LastSlash(p[..|p| - 1])
  }

  /** The index found holds a '/' and none follows it; -1 means the path has no '/'. */
  lemma {:induction false} LastSlashSpec(p: seq<byte>)
    ensures LastSlash(p) == -1 <==> SLASH !in p
    ensures LastSlash(p) >= 0 ==> p[LastSlash(p)] == SLASH && SLASH !in p[LastSlash(p) + 1..]
  {
    if p != [] && p[|p| - 1] != SLASH {
      var q := p[..|p| - 1];
      LastSlashSpec(q);
      assert p == q + [p[|p| - 1]];
      var r := LastSlash(q);
      if r >= 0 {
        assert p[r + 1..] == q[r + 1..] + [p[|p| - 1]];
      }
    }
  }

  /** `extract_filename`: the part of the path after its last '/', or the whole path. */
  function ExtractFilename(p: CString): (r: CString)
  {
    var k := LastSlash(p);
    if k < 0 then p else p[k + 1..]
  }

  /** The base name is the longest suffix of the path without a '/': it has no '/', and the
      path is either exactly the name or the name preceded by a '/'. */
  lemma ExtractFilenameSpec(p: CString)
    ensures SLASH !in ExtractFilename(p)
    ensures |ExtractFilename(p)| <= |p| && p[|p| - |ExtractFilename(p)|..] == ExtractFilename(p)
    ensures |ExtractFilename(p)| == |p| || p[|p| - |ExtractFilename(p)| - 1] == SLASH
    ensures SLASH !in p ==> ExtractFilename(p) == p
  {
    LastSlashSpec(p);
    var k := LastSlash(p);
    if k >= 0 {
      assert ExtractFilename(p) == p[k + 1..];
    }
  }

  /** A name with no '/' is its own base name, so extraction is idempotent. */
  lemma ExtractFilenameIdempotent(p: CString)
    ensures ExtractFilename(ExtractFilename(p)) == ExtractFilename(p)
  {
    ExtractFilenameSpec(p);
    ExtractFilenameSpec(ExtractFilename(p));
  }

  /** The adder's name check: the base name must fit the entry's name field with its NUL. */
  predicate NameFits(p: CString)
  {
    |ExtractFilename(p)| <= NAME_MAX
  }

  /** The name field of a fresh entry: zeroed, then `strncpy` of at most 57 bytes of the name,
      then byte 57 forced to NUL. */
  function NameBytes(name: CString): (r: NameField)
    ensures r[NAME_MAX] == 0
  {
    var k := if |name| < NAME_MAX then |name| else NAME_MAX;
    name[..k] + Zeros(NAME_LEN - k)
  }

  /** The C string stored in a name field: its bytes up to the first NUL. */
  function NameOf(field: seq<byte>): (r: CString)
    ensures |r| <= |field| && r == field[..|r|]
  {
    if field == [] || field[0] == 0 then [] else [field[0]] + NameOf(field[1..])
  }

  /** Reading the name back from the field gives the name itself when it fits, and its first
      57 bytes otherwise. */
  lemma {:induction false} NameRoundTrip(name: CString)
    ensures |name| <= NAME_MAX ==> NameOf(NameBytes(name)) == name
    ensures |name| > NAME_MAX ==> NameOf(NameBytes(name)) == name[..NAME_MAX]
  {
    var k := if |name| < NAME_MAX then |name| else NAME_MAX;
    NameOfPrefix(name[..k], Zeros(NAME_LEN - k));
  }

  lemma {:induction false} NameOfPrefix(s: CString, z: seq<byte>)
    requires |z| > 0 && z[0] == 0
    ensures NameOf(s + z) == s
  {
    if s != [] {
      assert (s + z)[1..] == s[1..] + z;
      NameOfPrefix(s[1..], z);
    }
  }
}
