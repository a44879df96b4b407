/** Output-name derivation: POSIX `os.path.splitext`, then a suffix inserted
    between the root and the extension. */
module PathNames {

  const EncryptSuffix: string := "_encryption"
  const DecryptSuffix: string := "_decryption"

  /** `str.rfind` for one character: the last index of `c` in `s`, or -1. */
  function RFind(s: string, c: char): (i: int)
    ensures -1 <= i < |s|
    ensures i >= 0 ==> s[i] == c
    ensures forall j :: i < j < |s| ==> s[j] != c
  {
    if |s| == 0 then -1
    else if s[|s| - 1] == c then |s| - 1
    else RFind(s[..|s| - 1], c)
  }

  /** Every character of `p` in [lo, hi) is a '.'. */
  predicate AllDots(p: string, lo: int, hi: int)
    requires 0 <= lo <= hi <= |p|
  {
    forall k :: lo <= k < hi ==> p[k] == '.'
  }

  /** No '/' at index `j` or after it: `j` lies in the final path component. */
  ghost predicate InFinalComponent(p: string, j: int) {
    forall m :: 0 <= j <= m < |p| ==> p[m] != '/'
  }

  /** A path has an extension when its final component holds a '.' after
      some character that is not a '.': leading dots, as in ".bashrc", do
      not start an extension. */
  ghost predicate HasExtension(p: string) {
    exists i, j :: 0 <= j < i < |p| && p[i] == '.' && p[j] != '.' && InFinalComponent(p, j)
  }

  /** An extension is a '.' followed by characters that are neither '.' nor '/'. */
  ghost predicate IsExtension(ext: string) {
    && |ext| > 0 && ext[0] == '.'
    && forall m :: 1 <= m < |ext| ==> ext[m] != '.' && ext[m] != '/'
  }

  datatype Split = Split(root: string, ext: string)

  /** `os.path.splitext` (posixpath): the extension starts at the last '.' if
      that '.' lies in the final component and something other than dots
      precedes it there; otherwise the extension is empty. */
  function SplitExt(p: string): (r: Split)
    ensures r.root + r.ext == p
    ensures r.ext != [] <==> HasExtension(p)
    ensures r.ext != [] ==> IsExtension(r.ext)
  {
    var sepIndex := RFind(p, '/');
    var dotIndex := RFind(p, '.');
    if dotIndex > sepIndex && !AllDots(p, sepIndex + 1, dotIndex) then
      ExtensionFound(p, sepIndex, dotIndex);
      Split(p[..dotIndex], p[dotIndex..])
    else
      NoExtensionFound(p, sepIndex, dotIndex);
      Split(p, [])
  }

  lemma ExtensionFound(p: string, sepIndex: int, dotIndex: int)
    requires sepIndex == RFind(p, '/') && dotIndex == RFind(p, '.')
    requires dotIndex > sepIndex && !AllDots(p, sepIndex + 1, dotIndex)
    ensures HasExtension(p) && IsExtension(p[dotIndex..])
  {
  }

  lemma NoExtensionFound(p: string, sepIndex: int, dotIndex: int)
    requires sepIndex == RFind(p, '/') && dotIndex == RFind(p, '.')
    requires !(dotIndex > sepIndex && !AllDots(p, sepIndex + 1, dotIndex))
    ensures !HasExtension(p)
  {
  }

  /** Two splits of one string at an extension are the same split: an
      extension starts at the last '.' of the string. */
  lemma ExtensionUnique(a: string, e: string, a': string, e': string)
    requires a + e == a' + e'
    requires IsExtension(e) && IsExtension(e')
    ensures a == a' && e == e'
  {
    var p := a + e;
    assert p[|a|] == '.' && p[|a'|] == '.';
    assert forall m :: |a| < m < |p| ==> p[m] == e[m - |a|];
    assert forall m :: |a'| < m < |p| ==> p[m] == e'[m - |a'|];
    assert |a| == |a'|;
    assert a == p[..|a|] && a' == p[..|a'|];
  }

  /** `f"{base}{suffix}{ext}"` with `base, ext = os.path.splitext(name)`. */
  function InsertSuffix(name: string, suffix: string): (out: string)
  {
    var s := SplitExt(name);
    s.root + suffix + s.ext
  }

  /** Inserting a suffix with no '.' and no '/' keeps the extension: the new
      name splits into the old root plus the suffix, and the old extension. */
  lemma InsertSuffixKeepsExtension(name: string, suffix: string)
    requires |suffix| > 0 && '.' !in suffix && '/' !in suffix
    ensures SplitExt(InsertSuffix(name, suffix)) == Split(SplitExt(name).root + suffix, SplitExt(name).ext)
  {
    var s := SplitExt(name);
    if s.ext == [] {
      AppendKeepsNoExtension(name, suffix);
      assert InsertSuffix(name, suffix) == name + suffix;
    } else {
      var t := SplitExt(InsertSuffix(name, suffix));
      InsertBeforeExtension(s.root, suffix, s.ext);
      ExtensionUnique(s.root + suffix, s.ext, t.root, t.ext);
    }
  }

  /** Appending dot-free, slash-free text to a name without an extension
      does not create one. */
  lemma AppendKeepsNoExtension(name: string, suffix: string)
    requires '.' !in suffix && '/' !in suffix
    requires !HasExtension(name)
    ensures !HasExtension(name + suffix)
  {
    var q := name + suffix;
    if HasExtension(q) {
      var i, j :| 0 <= j < i < |q| && q[i] == '.' && q[j] != '.' && InFinalComponent(q, j);
      assert forall m :: 0 <= m < |name| ==> name[m] == q[m];
      assert InFinalComponent(name, j);
      assert false;
    }
  }

  /** Text without a '.' inserted before an extension leaves a name that
      still has an extension. */
  lemma InsertBeforeExtension(root: string, suffix: string, ext: string)
    requires |suffix| > 0 && '.' !in suffix && '/' !in suffix
    requires IsExtension(ext)
    ensures HasExtension(root + suffix + ext)
  {
    var q := root + suffix + ext;
    var j := |root|;
    var i := |root| + |suffix|;
    assert forall m :: j <= m < i ==> q[m] == suffix[m - j];
    assert forall m :: i <= m < |q| ==> q[m] == ext[m - i];
    assert InFinalComponent(q, j);
    assert q[j] == suffix[0] && suffix[0] in suffix;
    assert q[i] == '.';
  }

  /** The name `encrypt_file` returns: `<base>_encryption<ext>`. */
  function EncryptedName(name: string): (out: string)
    ensures SplitExt(out) == Split(SplitExt(name).root + EncryptSuffix, SplitExt(name).ext)
  {
    InsertSuffixKeepsExtension(name, EncryptSuffix);
    InsertSuffix(name, EncryptSuffix)
  }

  /** The name `decrypt_file` returns: `<base>_decryption<ext>`. */
  function DecryptedName(name: string): (out: string)
    ensures SplitExt(out) == Split(SplitExt(name).root + DecryptSuffix, SplitExt(name).ext)
  {
    InsertSuffixKeepsExtension(name, DecryptSuffix);
    InsertSuffix(name, DecryptSuffix)
  }
}
