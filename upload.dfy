/**
 `allowed_file`: an uploaded file is accepted when its name has an extension,
 the part after the last dot, that is `txt`, `out` or `snap` in any case.
 */
module Upload {
  import opened Chars

  /** `ALLOWED_EXTENSIONS`. */
  const AllowedExtensions: set<string> := {"txt", "out", "snap"}

  /** Position of the last dot of f, where `rsplit('.', 1)` cuts it. */
  function LastDot(f: string): (i: nat)
    requires '.' in f
    ensures i < |f| && f[i] == '.'
    ensures '.' !in f[i + 1..]
  {
    var n := |f| - 1;
    if f[n] == '.' then n
    else
      var init := f[..n];
      assert '.' in init by {
        var k :| 0 <= k < |f| && f[k] == '.';
        assert init[k] == '.';
      }
      var i := LastDot(init);
      assert f[i + 1..] == init[i + 1..] + [f[n]];
      i
  }

  /** A dot with no dot after it is the last dot. */
  lemma LastDotUnique(f: string, j: nat)
    requires j < |f| && f[j] == '.' && '.' !in f[j + 1..]
    ensures '.' in f && LastDot(f) == j
  {
  }

  /** ext, lower-cased, is one of the allowed extensions. */
  predicate IsAllowedExtension(ext: string) {
    Lower(ext) in AllowedExtensions
  }

  /** `allowed_file(filename)`. */
  function AllowedFile(filename: string): bool {
    '.' in filename && IsAllowedExtension(filename[LastDot(filename) + 1..])
  }

  /** filename is a base name, a dot and a dot-free extension that lower-cases
      to an allowed one. */
  predicate AllowedSplit(filename: string, name: string, ext: string) {
    filename == name + "." + ext && '.' !in ext && IsAllowedExtension(ext)
  }

  /** The last dot splits a name into what precedes it and the extension. */
  lemma LastDotSplits(filename: string)
    requires '.' in filename
    ensures var i := LastDot(filename);
      filename == filename[..i] + "." + filename[i + 1..]
  {
    var i := LastDot(filename);
    var r := filename[..i] + "." + filename[i + 1..];
    assert |r| == |filename|;
    forall k | 0 <= k < |r| ensures r[k] == filename[k] {
      if k < i {
        assert r[k] == filename[..i][k];
      } else if i < k {
        assert r[k] == filename[i + 1..][k - i - 1];
      }
    }
  }

  /** The last dot splits an accepted name into a base name and its extension. */
  lemma AllowedFileSplits(filename: string)
    requires AllowedFile(filename)
    ensures AllowedSplit(filename, filename[..LastDot(filename)], filename[LastDot(filename) + 1..])
  {
    LastDotSplits(filename);
  }

  /** A split with a dot-free extension cuts at the last dot. */
  lemma SplitAtLastDot(filename: string, name: string, ext: string)
    requires filename == name + "." + ext && '.' !in ext
    ensures '.' in filename && filename[LastDot(filename) + 1..] == ext
  {
    assert filename[|name|] == '.';
    assert filename[|name| + 1..] == ext;
    LastDotUnique(filename, |name|);
  }

  /** A name is accepted exactly when it ends in a dot and an allowed extension
      that holds no further dot; the base name may be anything, dots and the
      empty string included. */
  lemma AllowedFileIff(filename: string)
    ensures AllowedFile(filename) <==> exists name, ext :: AllowedSplit(filename, name, ext)
  {
    if AllowedFile(filename) {
      AllowedFileSplits(filename);
    }
    if exists name, ext :: AllowedSplit(filename, name, ext) {
      var name, ext :| AllowedSplit(filename, name, ext);
      SplitAtLastDot(filename, name, ext);
    }
  }

  /** Whether a name is accepted depends on what follows its last dot only. */
  lemma ExtensionAfter(filename: string, j: nat)
    requires j < |filename| && filename[j] == '.' && '.' !in filename[j + 1..]
    ensures AllowedFile(filename) <==> IsAllowedExtension(filename[j + 1..])
  {
    LastDotUnique(filename, j);
  }

  /** The extension is compared without regard to case. */
  lemma UpperCaseAccepted()
    ensures AllowedFile("a.TXT")
  {
    var f := "a.TXT";
    ExtensionAfter(f, 1);
    assert f[2..] == "TXT";
    assert Lower("TXT") == "txt";
  }

  /** Only the last extension counts: an allowed one earlier in the name is
      not enough. */
  lemma InnerExtensionIgnored()
    ensures !AllowedFile("a.snap.exe")
  {
    var f := "a.snap.exe";
    ExtensionAfter(f, 6);
    assert f[7..] == "exe";
    assert Lower("exe") == "exe";
  }

  /** An allowed last extension suffices, whatever precedes it. */
  lemma LastExtensionCounts()
    ensures AllowedFile("errlog.exe.out")
  {
    var f := "errlog.exe.out";
    ExtensionAfter(f, 10);
    assert f[11..] == "out";
    assert Lower("out") == "out";
  }

  /** A name without a dot is refused, even when it spells an extension. */
  lemma NoDotRefused()
    ensures !AllowedFile("txt")
  {
  }
}
