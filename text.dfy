/** Text and path-name helpers shared by both platforms' archive classifiers. */
module Text {

  /** `toLowerCase()` / `lowercased()`, restricted to the ASCII letters A-Z. */
  function LowerChar(c: char): (r: char)
    ensures !('A' <= r <= 'Z')
    ensures !('A' <= c <= 'Z') ==> r == c
    ensures 'A' <= c <= 'Z' ==> r as int - c as int == 32 && 'a' <= r <= 'z'
  {
    if 'A' <= c <= 'Z' then (c as int + 32) as char else c
  }

  function Lower(s: string): (r: string)
    ensures |r| == |s|
    ensures forall i :: 0 <= i < |s| ==> r[i] == LowerChar(s[i])
  {
    seq(|s|, i requires 0 <= i < |s| => LowerChar(s[i]))
  }

  lemma LowerIsIdempotent(s: string)
    ensures Lower(Lower(s)) == Lower(s)
  {
  }

  /** `endsWith` / `hasSuffix`. */
  predicate EndsWith(s: string, suffix: string)
  {
    |suffix| <= |s| && s[|s| - |suffix|..] == suffix
  }

  /** Index of the last occurrence of `c` in `s`, or -1 when there is none. */
  function LastIndexOf(s: string, c: char): (k: int)
    ensures -1 <= k < |s|
    ensures k >= 0 ==> s[k] == c
    ensures forall j :: k < j < |s| ==> s[j] != c
  {
    if |s| == 0 then -1
    else if s[|s| - 1] == c then |s| - 1
    else LastIndexOf(s[..|s| - 1], c)
  }

  /** `lastPathComponent` / `File.getName()`: the text after the last '/'. */
  function LastComponent(path: string): (r: string)
    ensures '/' !in r
    ensures EndsWith(path, r)
  {
    path[LastIndexOf(path, '/') + 1..]
  }

  /**
   * `pathExtension`: the text after the last '.', or "" when there is no '.'
   * or the only one starts the name (".tar" is a hidden file, not an extension).
   */
  function PathExtension(name: string): (r: string)
    ensures '.' !in r
    ensures r != "" ==> EndsWith(name, "." + r) && |r| + 1 < |name|
  {
    var k := LastIndexOf(name, '.');
    if k <= 0 then "" else name[k + 1..]
  }

  /**
   * Testing the extension for "tar" is the same as testing the name for the
   * suffix ".tar" with something before it.
   */
  lemma ExtensionTarIffSuffix(name: string)
    ensures PathExtension(name) == "tar" <==> EndsWith(name, ".tar") && |name| > 4
  {
    var n := |name|;
    if EndsWith(name, ".tar") && n > 4 {
      assert name[n - 4] == '.' && name[n - 3] == 't' && name[n - 2] == 'a' && name[n - 1] == 'r';
      var k := LastIndexOf(name, '.');
      assert k == n - 4;
      assert name[k + 1..] == "tar";
    }
  }

  /** Lower-casing leaves '/' alone, so it commutes with taking the last path component. */
  lemma LowerCommutesWithLastComponent(path: string)
    ensures Lower(LastComponent(path)) == LastComponent(Lower(path))
  {
    LastIndexOfLower(path, '/');
    var k := LastIndexOf(path, '/') + 1;
    assert Lower(path)[k..] == Lower(path[k..]) by {
      forall i | 0 <= i < |path| - k ensures Lower(path)[k..][i] == Lower(path[k..])[i] { }
    }
  }

  lemma {:induction false} LastIndexOfLower(s: string, c: char)
    requires !('A' <= c <= 'Z') && !('a' <= c <= 'z')
    ensures LastIndexOf(Lower(s), c) == LastIndexOf(s, c)
  {
    if |s| > 0 {
      assert Lower(s)[..|s| - 1] == Lower(s[..|s| - 1]);
      LastIndexOfLower(s[..|s| - 1], c);
    }
  }

  /** Lower-casing leaves '.' alone, so it commutes with taking the extension. */
  lemma PathExtensionOfLower(name: string)
    ensures Lower(PathExtension(name)) == PathExtension(Lower(name))
  {
    LastIndexOfLower(name, '.');
    var j := LastIndexOf(name, '.') + 1;
    assert Lower(name)[j..] == Lower(name[j..]) by {
      forall i | 0 <= i < |name| - j ensures Lower(name)[j..][i] == Lower(name[j..])[i] { }
    }
  }

  /** A suffix ends where its subject ends: the k-th characters from the end agree. */
  lemma EndsWithCharFromEnd(s: string, suffix: string, k: nat)
    requires EndsWith(s, suffix) && 0 < k <= |suffix|
    ensures s[|s| - k] == suffix[|suffix| - k]
  {
    assert s[|s| - |suffix|..][|suffix| - k] == s[|s| - k];
  }

  /** Two suffixes that differ `k` characters from the end never end the same string. */
  lemma EndsWithAtMostOne(s: string, a: string, b: string, k: nat)
    requires 0 < k <= |a| && k <= |b| && a[|a| - k] != b[|b| - k]
    ensures !(EndsWith(s, a) && EndsWith(s, b))
  {
    if EndsWith(s, a) && EndsWith(s, b) {
      EndsWithCharFromEnd(s, a, k);
      EndsWithCharFromEnd(s, b, k);
    }
  }

  /** Lower-casing a suffix test's subject matters only through its tail. */
  lemma EndsWithLower(s: string, suffix: string)
    requires EndsWith(s, suffix)
    ensures EndsWith(Lower(s), Lower(suffix))
  {
    assert Lower(s)[|s| - |suffix|..] == Lower(suffix);
  }
}
