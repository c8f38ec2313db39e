/**
  File selection and output naming in `process_images_in_directory`: the case-insensitive
  extension filter, and POSIX path joining (`os.path.join`, `os.path.basename`) for the
  output directory and the output files.
*/
module Paths {

  // ---------------------------------------------------------------------------
  // The eligibility filter
  // ---------------------------------------------------------------------------

  /** The extensions processed, as `filename.lower().endswith(...)` tests them. */
  const SupportedFormats: seq<string> := [".jpg", ".jpeg", ".png"]

  /**
    `str.lower` on one character, for the characters that matter here: no character
    outside `A`-`Z` lowers to one of the letters of a supported extension or to `.`.
  */
  function LowerChar(c: char): (r: char)
    ensures !('A' <= r <= 'Z')
    ensures 'A' <= c <= 'Z' ==> 'a' <= r <= 'z' && r as int - 'a' as int == c as int - 'A' as int
    ensures !('A' <= c <= 'Z') ==> r == c
  {
    if 'A' <= c <= 'Z' then (c as int - 'A' as int + 'a' as int) as char else c
  }

  /** `str.lower`, character by character. */
  function Lower(s: string): (r: string)
    ensures |r| == |s|
  {
    seq(|s|, i requires 0 <= i < |s| => LowerChar(s[i]))
  }

  /** Lower-casing leaves no upper-case letter and keeps every other character where it was. */
  lemma LowerOnlyFoldsCapitals(s: string)
    ensures forall i :: 0 <= i < |s| ==> !('A' <= Lower(s)[i] <= 'Z')
    ensures forall i :: 0 <= i < |s| && !('A' <= s[i] <= 'Z') ==> Lower(s)[i] == s[i]
  {
  }

  predicate EndsWith(s: string, suffix: string)
  {
    |suffix| <= |s| && s[|s| - |suffix|..] == suffix
  }

  /** `filename.lower().endswith(('.jpg', '.jpeg', '.png'))`. */
  predicate IsEligible(name: string)
    ensures IsEligible(name) ==> |name| >= 4
  {
    exists i :: 0 <= i < |SupportedFormats| && EndsWith(Lower(name), SupportedFormats[i])
  }

  lemma LowerAppend(a: string, b: string)
    ensures Lower(a + b) == Lower(a) + Lower(b)
  {
  }

  /**
    A name is eligible exactly when it splits into a stem and an extension whose lower-case
    form is a supported one: `.jpg`, `.JPG`, `.Jpeg` and `.PNG` all qualify.
  */
  lemma EligibleIffSupportedExtension(name: string)
    ensures IsEligible(name) <==>
      exists k :: 0 <= k <= |name| && Lower(name[k..]) in SupportedFormats
  {
    if IsEligible(name) {
      var i :| 0 <= i < |SupportedFormats| && EndsWith(Lower(name), SupportedFormats[i]);
      var k := |name| - |SupportedFormats[i]|;
      assert Lower(name[k..]) == Lower(name)[k..];
    }
    if k :| 0 <= k <= |name| && Lower(name[k..]) in SupportedFormats {
      var i :| 0 <= i < |SupportedFormats| && SupportedFormats[i] == Lower(name[k..]);
      assert name == name[..k] + name[k..];
      LowerAppend(name[..k], name[k..]);
      assert EndsWith(Lower(name), SupportedFormats[i]);
    }
  }

  /** Every supported extension ends in `g`, so every eligible name ends in `g` or `G`. */
  lemma EligibleEndsInG(name: string)
    requires IsEligible(name)
    ensures |name| > 0 && LowerChar(name[|name| - 1]) == 'g'
  {
    var i :| 0 <= i < |SupportedFormats| && EndsWith(Lower(name), SupportedFormats[i]);
    var ext := SupportedFormats[i];
    assert ext[|ext| - 1] == 'g';
    var low := Lower(name);
    assert low[|low| - |ext|..] == ext;
    assert low[|low| - 1] == low[|low| - |ext|..][|ext| - 1];
  }

  /** Any stem followed by a supported extension in any letter case is eligible. */
  lemma ExtensionCaseIgnored(stem: string, ext: string)
    requires Lower(ext) in SupportedFormats
    ensures IsEligible(stem + ext)
  {
    var name := stem + ext;
    assert name[|stem|..] == ext;
    EligibleIffSupportedExtension(name);
  }

  // ---------------------------------------------------------------------------
  // POSIX paths
  // ---------------------------------------------------------------------------

  const Separator: char := '/'

  /** `os.path.join(a, b)` on POSIX: an absolute `b` replaces `a`; a separator is added unless `a` is empty or ends in one. */
  function Join(a: string, b: string): (r: string)
    ensures EndsWith(r, b)
    ensures b == [] || b[0] != Separator ==> |a| + |b| <= |r| <= |a| + |b| + 1 && r[..|a|] == a
    ensures (b == [] || b[0] != Separator) && |r| == |a| + |b| + 1 ==> r[|a|] == Separator
    ensures |b| > 0 && b[0] == Separator ==> r == b
  {
    if |b| > 0 && b[0] == Separator then b
    else if a == [] || a[|a| - 1] == Separator then a + b
    else a + [Separator] + b
  }

  /** `os.path.basename(p)`: the text after the last separator (empty when `p` ends in one). */
  function Basename(p: string): (r: string)
    ensures Separator !in r
  {
    if p == [] || p[|p| - 1] == Separator then [] else Basename(p[..|p| - 1]) + [p[|p| - 1]]
  }

  /** The base name is the longest separator-free tail of the path: it follows the last separator, if any. */
  lemma {:induction false} BasenameIsLastComponent(p: string)
    ensures EndsWith(p, Basename(p))
    ensures |Basename(p)| < |p| ==> p[|p| - |Basename(p)| - 1] == Separator
  {
    if p != [] && p[|p| - 1] != Separator {
      var init := p[..|p| - 1];
      BasenameIsLastComponent(init);
      var r := Basename(p);
      assert r == Basename(init) + [p[|p| - 1]];
      assert p[|p| - |r|..] == init[|init| - |Basename(init)|..] + [p[|p| - 1]];
    }
  }

  /** The suffix of the output directory's name. */
  const OutputSuffix := "_watermark"

  /** `os.path.join(input_dir, basename(input_dir) + "_watermark")`: an entry of the input directory named after it. */
  function OutputDir(inputDir: string): (r: string)
    ensures Basename(r) == Basename(inputDir) + OutputSuffix
  {
    var entry := Basename(inputDir) + OutputSuffix;
    assert Separator !in entry;
    JoinEntry(inputDir, entry);
    BasenameOfEntry(DirPrefix(inputDir), entry);
    Join(inputDir, entry)
  }

  /** `os.path.join(input_dir, filename)`. */
  function InputPath(inputDir: string, name: string): (r: string)
    ensures EndsWith(r, name)
    ensures IsEntryName(name) ==> |r| > |inputDir| && r[..|inputDir|] == inputDir
  {
    Join(inputDir, name)
  }

  /** `os.path.join(output_dir, filename)`. */
  function OutputPath(inputDir: string, name: string): (r: string)
    ensures EndsWith(r, name)
    ensures IsEntryName(name) ==> |r| > |OutputDir(inputDir)| && r[..|OutputDir(inputDir)|] == OutputDir(inputDir)
  {
    Join(OutputDir(inputDir), name)
  }

  /** A name as a directory listing gives it: not empty and free of separators. */
  predicate IsEntryName(name: string)
  {
    name != [] && Separator !in name
  }

  /** `inputDir` followed by the separator `Join` puts after it, if any. */
  function DirPrefix(inputDir: string): string
  {
    if inputDir == [] || inputDir[|inputDir| - 1] == Separator then inputDir else inputDir + [Separator]
  }

  lemma JoinEntry(dir: string, name: string)
    requires Separator !in name
    ensures Join(dir, name) == DirPrefix(dir) + name
  {
  }

  /** The output directory is the entry `<basename>_watermark` inside the input directory. */
  lemma OutputDirLayout(inputDir: string)
    ensures OutputDir(inputDir) == DirPrefix(inputDir) + Basename(inputDir) + OutputSuffix
    ensures Basename(OutputDir(inputDir)) == Basename(inputDir) + OutputSuffix
  {
    var entry := Basename(inputDir) + OutputSuffix;
    assert Separator !in entry;
    JoinEntry(inputDir, entry);
  }

  /** Every output file is the entry of the same name inside the output directory. */
  lemma OutputPathLayout(inputDir: string, name: string)
    requires IsEntryName(name)
    ensures OutputPath(inputDir, name) == OutputDir(inputDir) + [Separator] + name
    ensures Basename(OutputPath(inputDir, name)) == name
  {
    OutputDirLayout(inputDir);
    var out := OutputDir(inputDir);
    assert out[|out| - 1] == 'k';
    BasenameOfEntry(out + [Separator], name);
  }

  lemma {:induction false} BasenameOfEntry(prefix: string, entry: string)
    requires prefix == [] || prefix[|prefix| - 1] == Separator
    requires Separator !in entry
    ensures Basename(prefix + entry) == entry
  {
    if entry != [] {
      var init := entry[..|entry| - 1];
      BasenameOfEntry(prefix, init);
      assert (prefix + entry)[..|prefix + entry| - 1] == prefix + init;
      assert entry == init + [entry[|entry| - 1]];
    }
  }

  /** The output directory's own name, which the listing of the input directory shows, is never eligible. */
  lemma OutputDirNeverEligible(inputDir: string)
    ensures !IsEligible(Basename(OutputDir(inputDir)))
  {
    OutputDirLayout(inputDir);
    if IsEligible(Basename(OutputDir(inputDir))) {
      EligibleEndsInG(Basename(OutputDir(inputDir)));
    }
  }

  /** No output path is the path of an entry of the input directory: inputs are never overwritten. */
  lemma OutputNeverAnInput(inputDir: string, name: string, other: string)
    requires IsEntryName(name) && IsEntryName(other)
    ensures OutputPath(inputDir, name) != InputPath(inputDir, other)
  {
    OutputDirLayout(inputDir);
    OutputPathLayout(inputDir, name);
    JoinEntry(inputDir, other);
    var pre, mid := DirPrefix(inputDir), Basename(inputDir) + OutputSuffix;
    var out, inp := OutputPath(inputDir, name), InputPath(inputDir, other);
    assert out == pre + mid + [Separator] + name;
    assert out[|pre| + |mid|] == Separator;
    assert inp == pre + other;
    if |inp| == |out| {
      assert inp[|pre| + |mid|] == other[|mid|];
    }
  }

  /** A trailing separator empties the base name, so the output directory is then called `_watermark`. */
  lemma TrailingSeparatorGivesBareSuffix(dir: string)
    requires dir != [] && dir[|dir| - 1] == Separator
    ensures OutputDir(dir) == dir + OutputSuffix
  {
    OutputDirLayout(dir);
  }

  lemma TrailingSeparatorExample()
    ensures OutputDir("photos/") == "photos/_watermark"
  {
    TrailingSeparatorGivesBareSuffix("photos/");
  }
}
