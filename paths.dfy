/**
 * The parts of Python's `pathlib` that backend/services/storage_service.py relies on:
 * `Path(p).name`, `.suffix` and `.stem`, the `<name>.meta` sidecar name, and the
 * unique stored name built from a timestamp, a uuid and the original suffix.
 */
module Paths {

  /** `s.rfind(c)`: the last index holding `c`, or -1. */
  function LastIndexOf(s: string, c: char): (i: int)
    ensures -1 <= i < |s|
    ensures 0 <= i ==> s[i] == c
    ensures forall j :: i < j < |s| ==> s[j] != c
  {
    if s == [] then -1
    else if s[|s| - 1] == c then |s| - 1
    else LastIndexOf(s[..|s| - 1], c)
  }

  lemma LastIndexOfIs(s: string, c: char, k: int)
    requires 0 <= k < |s| && s[k] == c
    requires forall j :: k < j < |s| ==> s[j] != c
    ensures LastIndexOf(s, c) == k
  {
  }

  /** `Path(p).name`: the final component, everything after the last '/'. */
  function Name(path: string): (name: string)
    ensures forall j :: 0 <= j < |name| ==> name[j] != '/'
    ensures (forall j :: 0 <= j < |path| ==> path[j] != '/') ==> name == path
  {
    path[LastIndexOf(path, '/') + 1..]
  }

  /**
   * The name is exactly the text after the last '/': a tail of the path preceded by '/' or by
   * nothing, so a directory joined to a plain name gives that name back.
   */
  lemma NameIsLastComponent(path: string, directory: string, name: string)
    ensures |Name(path)| <= |path| && Name(path) == path[|path| - |Name(path)|..]
    ensures |Name(path)| < |path| ==> path[|path| - |Name(path)| - 1] == '/'
    ensures '/' !in name ==> Name(directory + "/" + name) == name
  {
    var joined := directory + "/" + name;
    if '/' !in name {
      assert joined[|directory|] == '/';
      assert forall j :: |directory| < j < |joined| ==> joined[j] == name[j - |directory| - 1];
      LastIndexOfIs(joined, '/', |directory|);
      assert joined[|directory| + 1..] == name;
    }
  }

  /**
   * `Path(p).suffix` as CPython 3.13 and earlier compute it: from the last '.' of the name
   * on, unless that dot is first or last.
   */
  function Suffix(path: string): (r: string)
    ensures forall j :: 0 <= j < |r| ==> r[j] != '/'
    ensures r != [] ==> |r| >= 2 && r[0] == '.'
    ensures forall j :: 0 < j < |r| ==> r[j] != '.'
  {
    var name := Name(path);
    var i := LastIndexOf(name, '.');
    if 0 < i < |name| - 1 then name[i..] else ""
  }

  /** `Path(name).stem` of a name (a single path component), by the same CPython 3.13 rule. */
  function Stem(name: string): (r: string)
    ensures |r| <= |name|
    ensures name != [] ==> r != []
    ensures r == name[..|r|]
  {
    var i := LastIndexOf(name, '.');
    if 0 < i < |name| - 1 then name[..i] else name
  }

  lemma StemThenSuffix(name: string)
    requires '/' !in name
    ensures Stem(name) + Suffix(name) == name
  {
  }

  /** The sidecar that records a stored file's upload time. */
  function MetaName(filename: string): string
  {
    filename + ".meta"
  }

  /** Names the pattern `*.meta` matches. */
  predicate IsMetaName(name: string)
  {
    |name| >= 5 && name[|name| - 5..] == ".meta"
  }

  lemma MetaNameIsMetaName(filename: string)
    ensures IsMetaName(MetaName(filename))
  {
    assert MetaName(filename)[|filename|..] == ".meta";
  }

  /** The stem of a sidecar name is the stored file's name; `.meta` alone is its own stem. */
  lemma {:induction false} StemOfMetaName(filename: string)
    ensures filename != "" ==> Stem(MetaName(filename)) == filename
    ensures filename == "" ==> Stem(MetaName(filename)) == MetaName(filename)
  {
    if filename != "" {
      assert MetaName(filename) == filename + "." + "meta";
      SplitAtLastDot(filename, "meta");
    } else {
      assert MetaName(filename) == ".meta";
      LastIndexOfIs(".meta", '.', 0);
    }
  }

  /**
   * A name split at its last dot, with text on both sides: the stem is the text before the
   * dot and, for a single path component, the suffix is the dot and the text after it.
   */
  lemma {:induction false} SplitAtLastDot(base: string, extension: string)
    requires base != "" && extension != "" && '.' !in extension
    ensures Stem(base + "." + extension) == base
    ensures '/' !in base && '/' !in extension ==> Suffix(base + "." + extension) == "." + extension
  {
    var name := base + "." + extension;
    assert name[|base|] == '.';
    assert forall j :: |base| < j < |name| ==> name[j] == extension[j - |base| - 1];
    LastIndexOfIs(name, '.', |base|);
    assert name[..|base|] == base;
    if '/' !in base && '/' !in extension {
      assert forall j :: 0 <= j < |name| ==> name[j] != '/' by {
        forall j | 0 <= j < |name| ensures name[j] != '/' {
          if j < |base| { assert name[j] == base[j]; }
        }
      }
      assert Name(name) == name;
      assert name[|base|..] == "." + extension;
    }
  }

  /** A name with no dot has no suffix and is its own stem. */
  lemma UndottedHasNoSuffix(name: string)
    requires '.' !in name
    ensures Suffix(name) == "" && Stem(name) == name
  {
  }

  /** Every sidecar name longer than `.meta` is the sidecar of its own stem. */
  lemma {:induction false} MetaNameOfStem(m: string)
    requires IsMetaName(m) && |m| > 5
    ensures Stem(m) == m[..|m| - 5] && MetaName(Stem(m)) == m
  {
    var filename := m[..|m| - 5];
    assert MetaName(filename) == m;
    StemOfMetaName(filename);
  }

  /** `_generate_unique_filename`: `<timestamp>_<uuid><suffix of the original>`. */
  function GenerateUniqueFilename(originalFilename: string, timestamp: string, uniqueId: string): (r: string)
    ensures |r| == |timestamp| + 1 + |uniqueId| + |Suffix(originalFilename)|
    ensures r[..|timestamp|] == timestamp && r[|timestamp|] == '_'
    ensures r[|timestamp| + 1..|timestamp| + 1 + |uniqueId|] == uniqueId
    ensures r[|r| - |Suffix(originalFilename)|..] == Suffix(originalFilename)
  {
    timestamp + "_" + uniqueId + Suffix(originalFilename)
  }

  /** A stored name keeps the file type of the upload, as long as the clock and uuid texts hold no '.' or '/'. */
  lemma {:induction false} UniqueNameKeepsSuffix(originalFilename: string, timestamp: string, uniqueId: string)
    requires '.' !in timestamp && '.' !in uniqueId
    requires '/' !in timestamp && '/' !in uniqueId
    ensures Suffix(GenerateUniqueFilename(originalFilename, timestamp, uniqueId)) == Suffix(originalFilename)
  {
    var prefix := timestamp + "_" + uniqueId;
    var suffix := Suffix(originalFilename);
    PlainJoin(timestamp, uniqueId);
    if suffix == "" {
      assert GenerateUniqueFilename(originalFilename, timestamp, uniqueId) == prefix;
      UndottedHasNoSuffix(prefix);
    } else {
      var extension := SuffixExtension(originalFilename);
      assert GenerateUniqueFilename(originalFilename, timestamp, uniqueId) == prefix + "." + extension;
      SplitAtLastDot(prefix, extension);
    }
  }

  /** Texts without '.' and '/' joined by '_' hold neither. */
  lemma PlainJoin(timestamp: string, uniqueId: string)
    requires '.' !in timestamp && '.' !in uniqueId
    requires '/' !in timestamp && '/' !in uniqueId
    ensures '.' !in timestamp + "_" + uniqueId && '/' !in timestamp + "_" + uniqueId
    ensures timestamp + "_" + uniqueId != ""
  {
    var prefix := timestamp + "_" + uniqueId;
    assert forall j :: 0 <= j < |prefix| ==> prefix[j] in timestamp + "_" + uniqueId;
  }

  /** The text after the dot of a non-empty suffix: at least one character, no '.' and no '/'. */
  function SuffixExtension(path: string): (extension: string)
    requires Suffix(path) != ""
    ensures Suffix(path) == "." + extension
    ensures extension != "" && '.' !in extension && '/' !in extension
  {
    var suffix := Suffix(path);
    assert forall j :: 0 <= j < |suffix[1..]| ==> suffix[1..][j] == suffix[j + 1];
    suffix[1..]
  }

  lemma PrefixDetermines(timestamp1: string, uniqueId1: string, timestamp2: string, uniqueId2: string)
    requires |timestamp1| == |timestamp2|
    requires timestamp1 + "_" + uniqueId1 == timestamp2 + "_" + uniqueId2
    ensures timestamp1 == timestamp2 && uniqueId1 == uniqueId2
  {
    var prefix := timestamp1 + "_" + uniqueId1;
    assert timestamp1 == prefix[..|timestamp1|] && uniqueId1 == prefix[|timestamp1| + 1..];
    assert timestamp2 == prefix[..|timestamp1|] && uniqueId2 == prefix[|timestamp1| + 1..];
  }

  /** Two uploads get different stored names when their timestamp or uuid differ (fixed-width texts). */
  lemma UniqueNamesDiffer(original1: string, timestamp1: string, uniqueId1: string,
                          original2: string, timestamp2: string, uniqueId2: string)
    requires |timestamp1| == |timestamp2| && |uniqueId1| == |uniqueId2|
    requires timestamp1 != timestamp2 || uniqueId1 != uniqueId2
    ensures GenerateUniqueFilename(original1, timestamp1, uniqueId1)
         != GenerateUniqueFilename(original2, timestamp2, uniqueId2)
  {
    var prefix1 := timestamp1 + "_" + uniqueId1;
    var prefix2 := timestamp2 + "_" + uniqueId2;
    var name1 := GenerateUniqueFilename(original1, timestamp1, uniqueId1);
    var name2 := GenerateUniqueFilename(original2, timestamp2, uniqueId2);
    assert name1[..|prefix1|] == prefix1 && name2[..|prefix2|] == prefix2;
    if prefix1 == prefix2 {
      PrefixDetermines(timestamp1, uniqueId1, timestamp2, uniqueId2);
    }
  }
}
