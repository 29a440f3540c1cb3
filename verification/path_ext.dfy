/** Node's POSIX `path.extname`, the extension the gallery's filter lower-cases
    and looks up: the last path component's suffix from its last '.', where a
    '.' at the start of the component and the component ".." give no extension. */
module PathExt {
  import opened Wrappers

  /** The index of the last occurrence of c in s. */
  function LastIndexOf(s: string, c: char): (r: Option<nat>)
    ensures r.Some? ==> r.value < |s| && s[r.value] == c && forall k | r.value < k < |s| :: s[k] != c
    ensures r.None? ==> c !in s
    decreases |s|
  {
    if s == [] then None
    else if s[|s| - 1] == c then Some(|s| - 1)
    else LastIndexOf(s[..|s| - 1], c)
  }

  /** s without its trailing '/' characters. */
  function TrimTrailingSlashes(s: string): (r: string)
    ensures r <= s
    ensures r == [] || r[|r| - 1] != '/'
    ensures forall k | |r| <= k < |s| :: s[k] == '/'
    decreases |s|
  {
    if s != [] && s[|s| - 1] == '/' then TrimTrailingSlashes(s[..|s| - 1]) else s
  }

  /** The last path component of a path without trailing slashes. */
  function LastComponent(s: string): (r: string)
    ensures |r| <= |s| && r == s[|s| - |r|..]
    ensures '/' !in r
    ensures |r| < |s| ==> s[|s| - |r| - 1] == '/'
    ensures '/' !in s ==> r == s
  {
    match LastIndexOf(s, '/')
    case Some(i) => s[i + 1..]
    case None => s
  }

  function ExtName(path: string): (r: string)
    ensures r == [] || (r[0] == '.' && '.' !in r[1..] && '/' !in r)
  {
    BaseExtName(LastComponent(TrimTrailingSlashes(path)))
  }

  /** The extension of a last path component. */
  function BaseExtName(base: string): (r: string)
    requires '/' !in base
    ensures r == [] || (r[0] == '.' && '.' !in r[1..] && '/' !in r)
  {
    if base == ".." then ""
    else match LastIndexOf(base, '.')
      case None => ""
      case Some(i) => if i == 0 then "" else base[i..]
  }

  /** For a directory entry name (no '/'), the extension is non-empty exactly
      when the name is a non-empty stem, a '.', and a '.'-free tail; it is
      then that '.' and tail. */
  lemma ExtNameOfEntry(name: string)
    requires '/' !in name
    ensures ExtName(name) != [] <==>
      exists i :: 0 < i < |name| && name[i] == '.' && '.' !in name[i + 1..] && name != ".."
    ensures forall i | 0 < i < |name| && name[i] == '.' && '.' !in name[i + 1..] && name != ".." ::
      ExtName(name) == name[i..]
  {
    assert ExtName(name) == BaseExtName(name) by {
      assert TrimTrailingSlashes(name) == name;
      assert LastComponent(name) == name;
    }
    BaseExtNameOf(name);
  }

  lemma BaseExtNameOf(name: string)
    requires '/' !in name
    ensures BaseExtName(name) != [] <==>
      exists i :: 0 < i < |name| && name[i] == '.' && '.' !in name[i + 1..] && name != ".."
    ensures forall i | 0 < i < |name| && name[i] == '.' && '.' !in name[i + 1..] && name != ".." ::
      BaseExtName(name) == name[i..]
  {
    match LastIndexOf(name, '.')
    case None =>
    case Some(j) =>
      if 0 < j && name != ".." {
        assert '.' !in name[j + 1..];
      }
  }
}
