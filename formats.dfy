/** Choosing an extractor from the archive path's extension: a
    case-sensitive suffix test, first match wins. */
module Formats {

  datatype Format = Zip | Rar | SevenZ | Tar | Unsupported

  /** `s.endswith(suffix)` on strings. */
  predicate EndsWith(s: string, suffix: string)
  {
    |suffix| <= |s| && s[|s| - |suffix|..] == suffix
  }

  /** `s.endswith(t)` for a tuple `t` of suffixes: any one of them. */
  predicate EndsWithAny(s: string, suffixes: seq<string>)
  {
    exists i :: 0 <= i < |suffixes| && EndsWith(s, suffixes[i])
  }

  const ZipSuffix: string := ".zip"
  const RarSuffix: string := ".rar"
  const SevenZSuffix: string := ".7z"
  const TarSuffixes: seq<string> := [".tar", ".tar.gz", ".tgz", ".tar.bz2"]

  /** The if/elif chain of `unzip_file`. */
  function Classify(path: string): Format
  {
    if EndsWith(path, ZipSuffix) then Zip
    else if EndsWith(path, RarSuffix) then Rar
    else if EndsWith(path, SevenZSuffix) then SevenZ
    else if EndsWithAny(path, TarSuffixes) then Tar
    else Unsupported
  }

  /** A reference reading of "ends with": the path is some prefix followed
      by the suffix. */
  ghost predicate HasSuffix(s: string, suffix: string)
  {
    exists prefix: string :: prefix + suffix == s
  }

  lemma EndsWithIsHasSuffix(s: string, suffix: string)
    ensures EndsWith(s, suffix) <==> HasSuffix(s, suffix)
  {
    if EndsWith(s, suffix) {
      var prefix := s[..|s| - |suffix|];
      assert prefix + suffix == s;
    }
    if HasSuffix(s, suffix) {
      var prefix: string :| prefix + suffix == s;
      assert s[|prefix|..] == suffix;
    }
  }

  /** A path that ends with `suffix` agrees with it character by character
      counted from the end. */
  lemma CharFromEnd(path: string, suffix: string, k: nat)
    requires EndsWith(path, suffix) && k < |suffix|
    ensures path[|path| - 1 - k] == suffix[|suffix| - 1 - k]
  {
    assert path[|path| - |suffix|..][|suffix| - 1 - k] == path[|path| - 1 - k];
  }

  /** Two suffixes that differ at the `k`-th character from the end cannot
      both end one path. */
  lemma NotBoth(path: string, a: string, b: string, k: nat)
    requires k < |a| && k < |b| && a[|a| - 1 - k] != b[|b| - 1 - k]
    ensures !(EndsWith(path, a) && EndsWith(path, b))
  {
    if EndsWith(path, a) && EndsWith(path, b) {
      CharFromEnd(path, a, k);
      CharFromEnd(path, b, k);
    }
  }

  /** A path whose last character is not the last character of any tar
      extension ends with none of them. */
  lemma NotTar(path: string)
    requires path != [] && path[|path| - 1] != 'r' && path[|path| - 1] != 'z' && path[|path| - 1] != '2'
    ensures !EndsWithAny(path, TarSuffixes)
  {
    forall i | 0 <= i < |TarSuffixes| ensures !EndsWith(path, TarSuffixes[i]) {
      if EndsWith(path, TarSuffixes[i]) {
        CharFromEnd(path, TarSuffixes[i], 0);
      }
    }
  }

  /** A `.zip` path carries no other format's extension. */
  lemma ZipExclusive(path: string)
    ensures EndsWith(path, ZipSuffix) ==> !EndsWith(path, RarSuffix) && !EndsWith(path, SevenZSuffix) && !EndsWithAny(path, TarSuffixes)
  {
    if EndsWith(path, ZipSuffix) {
      CharFromEnd(path, ZipSuffix, 0);
      NotTar(path);
    }
  }

  /** A `.rar` path carries neither the 7z nor a tar extension. */
  lemma RarExclusive(path: string)
    ensures EndsWith(path, RarSuffix) ==> !EndsWith(path, SevenZSuffix) && !EndsWithAny(path, TarSuffixes)
  {
    if EndsWith(path, RarSuffix) {
      NotBoth(path, RarSuffix, SevenZSuffix, 0);
      NotBoth(path, RarSuffix, TarSuffixes[0], 2);
      CharFromEnd(path, RarSuffix, 0);
      forall i | 1 <= i < |TarSuffixes| ensures !EndsWith(path, TarSuffixes[i]) {
        if EndsWith(path, TarSuffixes[i]) {
          CharFromEnd(path, TarSuffixes[i], 0);
        }
      }
    }
  }

  /** A `.7z` path carries no tar extension. */
  lemma SevenZExclusive(path: string)
    ensures EndsWith(path, SevenZSuffix) ==> !EndsWithAny(path, TarSuffixes)
  {
    if EndsWith(path, SevenZSuffix) {
      CharFromEnd(path, SevenZSuffix, 0);
      CharFromEnd(path, SevenZSuffix, 1);
      forall i | 0 <= i < |TarSuffixes| ensures !EndsWith(path, TarSuffixes[i]) {
        if EndsWith(path, TarSuffixes[i]) {
          CharFromEnd(path, TarSuffixes[i], 0);
          CharFromEnd(path, TarSuffixes[i], 1);
        }
      }
    }
  }

  /** Each format is chosen exactly when the path carries one of its own
      extensions, so the order of the tests never matters; everything else
      is unsupported. */
  lemma ClassifyCorrect(path: string)
    ensures Classify(path) == Zip <==> HasSuffix(path, ZipSuffix)
    ensures Classify(path) == Rar <==> HasSuffix(path, RarSuffix)
    ensures Classify(path) == SevenZ <==> HasSuffix(path, SevenZSuffix)
    ensures Classify(path) == Tar <==> exists i :: 0 <= i < |TarSuffixes| && HasSuffix(path, TarSuffixes[i])
    ensures Classify(path) == Unsupported <==>
      !HasSuffix(path, ZipSuffix) && !HasSuffix(path, RarSuffix) && !HasSuffix(path, SevenZSuffix) &&
      forall i :: 0 <= i < |TarSuffixes| ==> !HasSuffix(path, TarSuffixes[i])
  {
    ZipExclusive(path);
    RarExclusive(path);
    SevenZExclusive(path);
    EndsWithIsHasSuffix(path, ZipSuffix);
    EndsWithIsHasSuffix(path, RarSuffix);
    EndsWithIsHasSuffix(path, SevenZSuffix);
    forall i | 0 <= i < |TarSuffixes|
      ensures EndsWith(path, TarSuffixes[i]) <==> HasSuffix(path, TarSuffixes[i])
    {
      EndsWithIsHasSuffix(path, TarSuffixes[i]);
    }
  }

  /** A path whose last character is the last character of no extension
      is unsupported. */
  lemma NotClassified(path: string)
    requires path != []
    requires var c := path[|path| - 1]; c != 'p' && c != 'r' && c != 'z' && c != '2'
    ensures Classify(path) == Unsupported
  {
    NotTar(path);
  }

  /** Paths that carry none of the extensions are unsupported: another
      extension, a right one in the wrong case, or one not at the end. */
  lemma ClassifyUnsupportedExamples(stem: string)
    ensures Classify(stem + ".txt") == Unsupported
    ensures Classify(stem + ".ZIP") == Unsupported
    ensures Classify(stem + ".zip.bak") == Unsupported
  {
    NotClassified(stem + ".txt");
    NotClassified(stem + ".ZIP");
    NotClassified(stem + ".zip.bak");
  }
}
