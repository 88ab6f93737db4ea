/**
  The two System.IO.Path operations the reader and the finder rely on, with
  their Windows behaviour: Path.Combine (used for a file's Path) and
  Path.GetExtension (used by the extension filter). Both treat '\' and '/'
  as directory separators.
*/
module DotNetPath {

  predicate IsDirectorySeparator(c: char) { c == '\\' || c == '/' }

  predicate IsDriveLetter(c: char) { ('A' <= c <= 'Z') || ('a' <= c <= 'z') }

  /** A path that starts with a separator or with a drive such as "C:". */
  predicate IsPathRooted(p: string)
  {
    || (|p| >= 1 && IsDirectorySeparator(p[0]))
    || (|p| >= 2 && IsDriveLetter(p[0]) && p[1] == ':')
  }

  /** Path.Combine(first, second): an empty side yields the other, a rooted
      `second` wins outright, and a '\' is put between the two unless one
      side already has a separator at the join. */
  function Combine(first: string, second: string): (r: string)
    ensures first == "" ==> r == second
    ensures first != "" && second == "" ==> r == first
    ensures IsPathRooted(second) ==> r == second
    ensures r == second || r == first + second || r == first + "\\" + second
    ensures first != "" && second != "" && !IsPathRooted(second) ==>
              (r == first + "\\" + second <==> !IsDirectorySeparator(first[|first| - 1]) && !IsDirectorySeparator(second[0]))
    ensures first != "" && second != "" && !IsPathRooted(second) ==>
              (r == first + second <==> IsDirectorySeparator(first[|first| - 1]) || IsDirectorySeparator(second[0]))
    ensures |second| <= |r| && r[|r| - |second|..] == second
    ensures !IsPathRooted(second) ==> |first| <= |r| && r[..|first|] == first
  {
    if first == "" then second
    else if second == "" then first
    else if IsPathRooted(second) then second
    else if IsDirectorySeparator(first[|first| - 1]) || IsDirectorySeparator(second[0]) then first + second
    else first + "\\" + second
  }

  /** Joining two names with no separator at the join (the first may hold
      separators of its own, as a nested folder such as "meshes\\clutter"
      does) puts exactly one '\\' between them, so the first and the second
      can be read back off the result. */
  lemma CombinePlainNames(first: string, second: string)
    requires first != "" && second != ""
    requires !IsDirectorySeparator(first[|first| - 1]) && !IsPathRooted(second)
    ensures Combine(first, second)[..|first|] == first
    ensures Combine(first, second)[|first|] == '\\'
    ensures Combine(first, second)[|first| + 1..] == second
  {
    var r := first + "\\" + second;
    assert r[..|first|] == first;
    assert r[|first| + 1..] == second;
  }

  /** `k` is where the extension of `p` starts: a '.' that is not the last
      character, with no further '.' and no separator after it. */
  ghost predicate IsExtensionStart(p: string, k: int)
  {
    && 0 <= k < |p| - 1
    && p[k] == '.'
    && forall j :: k < j < |p| ==> p[j] != '.' && !IsDirectorySeparator(p[j])
  }

  /** A path has at most one place where its extension starts. */
  lemma ExtensionStartUnique(p: string, k: int, k': int)
    requires IsExtensionStart(p, k) && IsExtensionStart(p, k')
    ensures k == k'
  {
  }

  /** The backward scan of GetExtension over `p[..i]`, where `p[i..]` holds
      no '.' and no separator. */
  function ExtensionScan(p: string, i: nat): (r: string)
    requires i <= |p|
    requires forall j :: i <= j < |p| ==> p[j] != '.' && !IsDirectorySeparator(p[j])
    ensures r == "" || exists k :: IsExtensionStart(p, k)
    ensures forall k :: IsExtensionStart(p, k) ==> r == p[k..]
    decreases i
  {
    if i == 0 then ""
    else if p[i - 1] == '.' then
      if i - 1 != |p| - 1 then
        assert IsExtensionStart(p, i - 1);
        assert forall k :: IsExtensionStart(p, k) ==> k == i - 1 by {
          forall k | IsExtensionStart(p, k) { ExtensionStartUnique(p, k, i - 1); }
        }
        p[i - 1..]
      else ""
    else if IsDirectorySeparator(p[i - 1]) then ""
    else ExtensionScan(p, i - 1)
  }

  /** Path.GetExtension: from the last '.' to the end, unless a separator
      follows that '.' or it is the last character; "" when there is none. */
  function GetExtension(p: string): (r: string)
    ensures r == "" || exists k :: IsExtensionStart(p, k)
    ensures forall k :: IsExtensionStart(p, k) ==> r == p[k..]
  {
    ExtensionScan(p, |p|)
  }

  /** For an extension such as ".nif", GetExtension picks it out exactly
      when the path ends with it. */
  lemma ExtensionIsSuffix(p: string, ext: string)
    requires |ext| >= 2 && ext[0] == '.'
    requires forall j :: 1 <= j < |ext| ==> ext[j] != '.' && !IsDirectorySeparator(ext[j])
    ensures GetExtension(p) == ext <==> |ext| <= |p| && p[|p| - |ext|..] == ext
  {
    if |ext| <= |p| && p[|p| - |ext|..] == ext {
      var k := |p| - |ext|;
      forall j | k < j < |p| ensures p[j] != '.' && !IsDirectorySeparator(p[j]) {
        assert p[j] == ext[j - k];
      }
      assert IsExtensionStart(p, k);
    }
    if GetExtension(p) == ext {
      var k :| IsExtensionStart(p, k);
      assert p[k..] == ext;
    }
  }
}
