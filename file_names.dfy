/**
 * The file-name logic the two programs share: the basename of a path
 * (filebasename in main.cc), the kind of product a file name denotes
 * (getfiletype), the band number a VIIRS band file name carries after
 * "SVM" (getbandname, and the same loop in run of viirsresam.cc), and the
 * GMODO geolocation file name viirsresam.cc derives from a band file name.
 * Strings are sequences of characters; a C string's terminating NUL is not
 * part of them.
 */
module FileNames {
  import opened Wrappers

  /** The position of the last c in s, if any (strrchr). */
  function LastIndexOf(s: string, c: char): (k: Option<int>)
    ensures k.None? ==> forall i :: 0 <= i < |s| ==> s[i] != c
    ensures k.Some? ==> 0 <= k.value < |s| && s[k.value] == c && forall i :: k.value < i < |s| ==> s[i] != c
  {
    if |s| == 0 then None
    else if s[|s| - 1] == c then Some(|s| - 1)
    else LastIndexOf(s[..|s| - 1], c)
  }

  /**
   * filebasename: the part of path after its last '/', or all of it. The
   * result is a suffix without '/', and it is either all of path or
   * preceded by a '/'.
   */
  function FileBaseName(path: string): (b: string)
    ensures |b| <= |path| && b == path[|path| - |b|..]
    ensures forall i :: 0 <= i < |b| ==> b[i] != '/'
    ensures |b| < |path| ==> path[|path| - |b| - 1] == '/'
  {
    match LastIndexOf(path, '/')
    case None => path
    case Some(k) => path[k + 1..]
  }

  /**
   * The three facts FileBaseName ensures pin the basename down: a suffix
   * without '/' that is all of path or preceded by '/' is the basename.
   */
  lemma BaseNameUnique(path: string, b: string)
    requires |b| <= |path| && b == path[|path| - |b|..]
    requires forall i :: 0 <= i < |b| ==> b[i] != '/'
    requires |b| < |path| ==> path[|path| - |b| - 1] == '/'
    ensures FileBaseName(path) == b
  {
  }

  /** The basename of dir + name is name when dir is empty or ends in '/' and name has no '/'. */
  lemma BaseNameAfterDir(dir: string, name: string)
    requires |dir| == 0 || dir[|dir| - 1] == '/'
    requires forall i :: 0 <= i < |name| ==> name[i] != '/'
    ensures FileBaseName(dir + name) == name
  {
    var path := dir + name;
    assert path[|path| - |name|..] == name;
    if |dir| > 0 {
      assert path[|path| - |name| - 1] == dir[|dir| - 1];
    }
    BaseNameUnique(path, name);
  }

  /** The basename of dir + "/" + name is name, whatever dir is. */
  lemma BaseNameOfJoin(dir: string, name: string)
    requires forall i :: 0 <= i < |name| ==> name[i] != '/'
    ensures FileBaseName(dir + "/" + name) == name
  {
    BaseNameAfterDir(dir + "/", name);
  }

  /** s begins with p (strncmp(s, p, strlen(p)) == 0). */
  predicate HasPrefix(s: string, p: string)
  {
    |p| <= |s| && s[..|p|] == p
  }

  /** No name begins with two of "ACSPO_", "GMODO_npp_" and "GMTCO_npp_". */
  lemma PrefixesExclusive(b: string)
    ensures !(HasPrefix(b, "ACSPO_") && HasPrefix(b, "GMODO_npp_"))
    ensures !(HasPrefix(b, "ACSPO_") && HasPrefix(b, "GMTCO_npp_"))
    ensures !(HasPrefix(b, "GMODO_npp_") && HasPrefix(b, "GMTCO_npp_"))
  {
    if HasPrefix(b, "ACSPO_") {
      assert b[0] == "ACSPO_"[0];
    }
    if HasPrefix(b, "GMODO_npp_") {
      assert b[2] == "GMODO_npp_"[2];
    }
  }

  /** The kinds of file getfiletype tells apart. */
  datatype FileType = Unknown | Acspo | L2pGhrsst | Gmodo | Gmtco

  /** A GHRSST L2P product: "L2P_GHRSST" at offset 20 of a basename longer than 20. */
  predicate GhrsstName(b: string)
  {
    |b| > 20 && HasPrefix(b[20..], "L2P_GHRSST")
  }

  /**
   * getfiletype: the kind of file path names, decided on its basename. The
   * GHRSST test comes first; the three prefixes exclude one another, so
   * their order does not matter.
   */
  function GetFileType(path: string): (t: FileType)
    ensures var b := FileBaseName(path);
      (t == L2pGhrsst <==> GhrsstName(b)) &&
      (t == Acspo <==> !GhrsstName(b) && HasPrefix(b, "ACSPO_")) &&
      (t == Gmodo <==> !GhrsstName(b) && HasPrefix(b, "GMODO_npp_")) &&
      (t == Gmtco <==> !GhrsstName(b) && HasPrefix(b, "GMTCO_npp_")) &&
      (t == Unknown <==> !GhrsstName(b) && !HasPrefix(b, "ACSPO_") && !HasPrefix(b, "GMODO_npp_") && !HasPrefix(b, "GMTCO_npp_"))
  {
    var p := FileBaseName(path);
    PrefixesExclusive(p);
    if |p| > 20 && HasPrefix(p[20..], "L2P_GHRSST") then L2pGhrsst
    else if HasPrefix(p, "ACSPO_") then Acspo
    else if HasPrefix(p, "GMODO_npp_") then Gmodo
    else if HasPrefix(p, "GMTCO_npp_") then Gmtco
    else Unknown
  }

  /** The kind of a file does not depend on the directory it is in. */
  lemma FileTypeIgnoresDirectory(dir: string, name: string)
    requires forall i :: 0 <= i < |name| ==> name[i] != '/'
    ensures GetFileType(dir + "/" + name) == GetFileType(name)
  {
    BaseNameOfJoin(dir, name);
    BaseNameUnique(name, name);
  }

  /** "SVM" starts at position i of s. */
  predicate SvmAt(s: string, i: int)
    requires 0 <= i && i + 3 <= |s|
  {
    s[i] == 'S' && s[i + 1] == 'V' && s[i + 2] == 'M'
  }

  /** The value of a decimal digit character (c - '0' in C, for any character). */
  function DigitValue(c: char): int
  {
    c as int - '0' as int
  }

  /** The band number the two characters after the "SVM" at i stand for. */
  function BandDigits(s: string, i: int): int
    requires 0 <= i && i + 5 <= |s|
  {
    DigitValue(s[i + 3]) * 10 + DigitValue(s[i + 4])
  }

  /** The last position at or before i where "SVM" starts, if any. */
  function LastSvm(s: string, i: int): (k: Option<int>)
    requires i + 5 <= |s|
    ensures k.Some? ==> 0 <= k.value <= i && SvmAt(s, k.value) && forall j :: k.value < j <= i ==> !SvmAt(s, j)
    ensures k.None? ==> forall j :: 0 <= j <= i ==> !SvmAt(s, j)
    decreases i + 1
  {
    if i < 0 then None
    else if SvmAt(s, i) then Some(i)
    else LastSvm(s, i - 1)
  }

  /**
   * The band number of a file name: the two characters after the last
   * "SVM" that starts at or before position |s| - 6, read as decimal
   * digits; 0 when there is none.
   */
  function BandName(s: string): int
  {
    match LastSvm(s, |s| - 6)
    case None => 0
    case Some(i) => BandDigits(s, i)
  }

  /** getbandname: searches backwards from position |h5file| - 6 for "SVM". */
  method GetBandName(h5file: string) returns (band: int)
    ensures band == BandName(h5file)
  {
    band := 0;
    var i := |h5file| - 6;
    while i >= 0
      invariant i <= |h5file| - 6
      invariant LastSvm(h5file, |h5file| - 6) == LastSvm(h5file, i)
    {
      if h5file[i] == 'S' && h5file[i + 1] == 'V' && h5file[i + 2] == 'M' {
        band := (h5file[i + 3] as int - '0' as int) * 10 + (h5file[i + 4] as int - '0' as int);
        return;
      }
      i := i - 1;
    }
  }

  /** The two decimal digits of b. */
  function TwoDigits(b: int): (d: string)
    requires 0 <= b < 100
    ensures |d| == 2 && DigitValue(d[0]) * 10 + DigitValue(d[1]) == b
    ensures d[0] != 'S' && d[1] != 'S' && d[0] != '/' && d[1] != '/'
  {
    [('0' as int + b / 10) as char, ('0' as int + b % 10) as char]
  }

  /**
   * A file name that carries band b as "SVM" and two digits, followed by
   * at least one character and no further 'S', yields b.
   */
  lemma BandNameOfFileName(pre: string, b: int, post: string)
    requires 0 <= b < 100 && |post| >= 1
    requires forall i :: 0 <= i < |post| ==> post[i] != 'S'
    ensures BandName(pre + "SVM" + TwoDigits(b) + post) == b
  {
    var s := pre + "SVM" + TwoDigits(b) + post;
    var k := |pre|;
    assert SvmAt(s, k);
    forall j | k < j <= |s| - 6 ensures !SvmAt(s, j) {
      if j >= k + 5 {
        assert s[j] == post[j - k - 5];
      }
    }
    var found := LastSvm(s, |s| - 6);
    assert found == Some(k);
  }

  /**
   * The geolocation file name viirsresam.cc derives from band file name
   * h5file: the first five characters of the basename become "GMODO" when
   * the basename is longer than ten characters; otherwise the name is
   * used as it is.
   */
  function GeoFileName(h5file: string): (g: string)
    ensures |g| == |h5file|
  {
    var b := FileBaseName(h5file);
    if |b| > 10 then h5file[..|h5file| - |b|] + "GMODO" + b[5..] else h5file
  }

  /**
   * The derived name keeps the directory and length of h5file, and its
   * basename is the old basename with "GMODO" for its first five
   * characters (or unchanged, when ten characters or shorter).
   */
  lemma GeoFileNameParts(h5file: string)
    ensures var b, g := FileBaseName(h5file), GeoFileName(h5file);
      g[..|h5file| - |b|] == h5file[..|h5file| - |b|] &&
      FileBaseName(g) == if |b| > 10 then "GMODO" + b[5..] else b
  {
    var b, g := FileBaseName(h5file), GeoFileName(h5file);
    var dir := h5file[..|h5file| - |b|];
    if |b| > 10 {
      assert g == dir + ("GMODO" + b[5..]);
      if |dir| > 0 {
        assert dir[|dir| - 1] == h5file[|h5file| - |b| - 1];
      }
      GmodoBaseName(dir, b);
    }
  }

  /** Renaming a basename b to "GMODO" + b[5..] after a directory part keeps it the basename. */
  lemma GmodoBaseName(dir: string, b: string)
    requires |dir| == 0 || dir[|dir| - 1] == '/'
    requires |b| > 10 && forall i :: 0 <= i < |b| ==> b[i] != '/'
    ensures FileBaseName(dir + ("GMODO" + b[5..])) == "GMODO" + b[5..]
  {
    var nb := "GMODO" + b[5..];
    assert forall i :: 5 <= i < |nb| ==> nb[i] == b[i];
    BaseNameAfterDir(dir, nb);
  }

  /**
   * The name derived from a band file named in the npp convention
   * ("SVMnn_npp_...") is a GMODO file as getfiletype sees it.
   */
  lemma GeoFileIsGmodo(h5file: string)
    requires var b := FileBaseName(h5file); |b| > 10 && b[5..10] == "_npp_" && !GhrsstName(b)
    ensures GetFileType(GeoFileName(h5file)) == Gmodo
  {
    var b := FileBaseName(h5file);
    GeoFileNameParts(h5file);
    var nb := "GMODO" + b[5..];
    assert nb[..10] == "GMODO" + b[5..10];
    if |nb| > 20 {
      assert nb[20..] == b[5..][15..] == b[20..];
    }
  }

  /**
   * The source's form of GeoFileName: copies h5file into the buffer, finds
   * the basename with strrchr and overwrites its first five characters in
   * place.
   */
  method DeriveGeoFile(h5file: string) returns (geofile: array<char>)
    ensures fresh(geofile) && geofile[..] == GeoFileName(h5file)
  {
    geofile := new char[|h5file|](i requires 0 <= i < |h5file| => h5file[i]);
    assert geofile[..] == h5file;
    var p := match LastIndexOf(geofile[..], '/') case None => 0 case Some(k) => k + 1;
    assert |h5file| - p == |FileBaseName(h5file)|;
    if |h5file| - p > 10 {
      OverwriteGmodo(geofile, p);
      assert geofile[..] == h5file[..p] + "GMODO" + h5file[p + 5..];
      assert h5file[p + 5..] == FileBaseName(h5file)[5..];
    }
  }

  /** The five stores *p++ = 'G', 'M', 'O', 'D', 'O' at position p. */
  method OverwriteGmodo(a: array<char>, p: int)
    requires 0 <= p && p + 5 <= a.Length
    modifies a
    ensures a[..] == old(a[..])[..p] + "GMODO" + old(a[..])[p + 5..]
  {
    ghost var s := a[..];
    a[p] := 'G';
    a[p + 1] := 'M';
    a[p + 2] := 'O';
    a[p + 3] := 'D';
    a[p + 4] := 'O';
    assert forall i :: 0 <= i < a.Length ==> a[i] == (s[..p] + "GMODO" + s[p + 5..])[i];
  }
}
