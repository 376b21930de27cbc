/**
 * What the upload service promises, proved about the model in App: the
 * whitelist, the shape of generated names, which error goes with which
 * request, what the folder holds afterwards, and what the listing shows.
 */
module AppProperties {
  import opened Common
  import opened PyLib
  import opened App

  // ----- allowed_file -----

  /** `allowed_file(f)` holds exactly when some '.' of `f` is its last one and the lower-cased rest is whitelisted. */
  lemma AllowedFileIff(f: string)
    ensures AllowedFile(f) <==>
      exists i :: && 0 <= i < |f| && f[i] == '.'
                  && (forall k :: i < k < |f| ==> f[k] != '.')
                  && Lower(f[i + 1..]) in AllowedExtensions
  {
    if exists i :: && 0 <= i < |f| && f[i] == '.'
                   && (forall k :: i < k < |f| ==> f[k] != '.')
                   && Lower(f[i + 1..]) in AllowedExtensions
    {
      var i :| && 0 <= i < |f| && f[i] == '.'
               && (forall k :: i < k < |f| ==> f[k] != '.')
               && Lower(f[i + 1..]) in AllowedExtensions;
      RFindIs(f, '.', i);
    }
  }

  /** Only the text after the last '.' decides: `base + "." + ext` passes iff `ext` lower-cases into the whitelist. */
  lemma AllowedFileOfParts(base: string, ext: string)
    requires forall k :: 0 <= k < |ext| ==> ext[k] != '.'
    ensures AllowedFile(base + "." + ext) <==> Lower(ext) in AllowedExtensions
  {
    var f := base + "." + ext;
    RFindIs(f, '.', |base|);
    assert f[|base| + 1..] == ext;
  }

  /** A name ending in a '.' followed by dot-free text passes iff that text lower-cases into the whitelist. */
  lemma AllowedFileOfSuffix(pre: string, e: string)
    requires e != [] && e[0] == '.'
    requires forall k :: 0 < k < |e| ==> e[k] != '.'
    ensures AllowedFile(pre + e) <==> Lower(e[1..]) in AllowedExtensions
  {
    var f := pre + e;
    RFindIs(f, '.', |pre|);
    assert f[|pre| + 1..] == e[1..];
  }

  /** `"a."` and `"png"` are refused, `".PNG"` and `"photo.JPeG"` pass, `"x.png.exe"` is refused. */
  lemma AllowedFileExamples()
    ensures !AllowedFile("a.")
    ensures !AllowedFile("png")
    ensures AllowedFile(".PNG")
    ensures AllowedFile("photo.JPeG")
    ensures !AllowedFile("x.png.exe")
  {
    AllowedFileTrailingDot();
    AllowedFileNoDot();
    AllowedFileUpperCase();
    AllowedFileMixedCase();
    AllowedFileLastExtensionOnly();
  }

  lemma AllowedFileTrailingDot()
    ensures !AllowedFile("a.")
  {
    AllowedFileOfParts("a", "");
    assert "a" + "." + "" == "a.";
  }

  lemma AllowedFileNoDot()
    ensures !AllowedFile("png")
  {
    RFindIs("png", '.', -1);
  }

  lemma AllowedFileUpperCase()
    ensures AllowedFile(".PNG")
  {
    AllowedFileOfParts("", "PNG");
    assert "" + "." + "PNG" == ".PNG";
    assert LowerChar('P') == 'p' && LowerChar('N') == 'n' && LowerChar('G') == 'g';
    LowerIs("PNG", "png");
  }

  lemma AllowedFileMixedCase()
    ensures AllowedFile("photo.JPeG")
  {
    AllowedFileOfParts("photo", "JPeG");
    assert "photo" + "." + "JPeG" == "photo.JPeG";
    assert LowerChar('J') == 'j' && LowerChar('P') == 'p' && LowerChar('e') == 'e' && LowerChar('G') == 'g';
    LowerIs("JPeG", "jpeg");
  }

  lemma AllowedFileLastExtensionOnly()
    ensures !AllowedFile("x.png.exe")
  {
    AllowedFileOfParts("x.png", "exe");
    assert "x.png" + "." + "exe" == "x.png.exe";
    assert Lower("exe")[0] == LowerChar('e') == 'e';
    NotWhitelistedByInitial(Lower("exe"));
  }

  // ----- os.path.splitext and generate_unique_filename -----

  /** A name with no '/' whose part before its last '.' holds a non-dot splits at that dot. */
  lemma SplitExtOfParts(base: string, ext: string)
    requires exists k :: 0 <= k < |base| && base[k] != '.'
    requires forall k :: 0 <= k < |base| ==> base[k] != '/'
    requires forall k :: 0 <= k < |ext| ==> ext[k] != '.' && ext[k] != '/'
    ensures SplitExt(base + "." + ext) == (base, "." + ext)
  {
    var p := base + "." + ext;
    RFindIs(p, '/', -1);
    RFindIs(p, '.', |base|);
    var k :| 0 <= k < |base| && base[k] != '.';
    assert p[k] == base[k];
    NonDotInExists(p, 0, |base|);
    assert p[..|base|] == base;
    assert p[|base|..] == "." + ext;
  }

  /** A dotfile has no extension: ".bashrc" is (".bashrc", ""). */
  lemma SplitExtDotfile()
    ensures SplitExt(".bashrc") == (".bashrc", "")
  {
    RFindIs(".bashrc", '/', -1);
    RFindIs(".bashrc", '.', 0);
  }

  /** Only the last extension is split off: "archive.tar.gz" is ("archive.tar", ".gz"). */
  lemma SplitExtDoubleExtension()
    ensures SplitExt("archive.tar.gz") == ("archive.tar", ".gz")
  {
    assert "archive.tar"[0] != '.';
    SplitExtOfParts("archive.tar", "gz");
    assert "archive.tar" + "." + "gz" == "archive.tar.gz";
  }

  /** A trailing dot is an extension of its own: "a." is ("a", "."). */
  lemma SplitExtTrailingDot()
    ensures SplitExt("a.") == ("a", ".")
  {
    assert "a"[0] != '.';
    SplitExtOfParts("a", "");
    assert "a" + "." + "" == "a.";
  }

  /** A dot in a directory name is not an extension: "dir.d/file" is ("dir.d/file", ""). */
  lemma SplitExtDotInDirectory()
    ensures SplitExt("dir.d/file") == ("dir.d/file", "")
  {
    RFindIs("dir.d/file", '/', 5);
    RFindIs("dir.d/file", '.', 3);
  }

  /** Appending text free of '.' and '/' to a name without extension leaves it without one. */
  lemma SplitExtAppendWithoutExtension(f: string, w: string)
    requires SplitExt(f).1 == []
    requires forall k :: 0 <= k < |w| ==> w[k] != '.' && w[k] != '/'
    ensures SplitExt(f + w) == (f + w, [])
  {
    var g := f + w;
    RFindAppend(f, w, '/');
    RFindAppend(f, w, '.');
    var sep, dot := RFind(f, '/'), RFind(f, '.');
    if dot > sep {
      NonDotInExists(f, sep + 1, dot);
      NonDotInExists(g, sep + 1, dot);
      assert forall k :: sep < k < dot ==> g[k] == f[k];
    }
  }

  /** Inserting text that has a non-dot and no '.' or '/' before an extension keeps that extension. */
  lemma SplitExtInsertBeforeExtension(f: string, w: string)
    requires SplitExt(f).1 != []
    requires |w| > 0 && w[0] != '.'
    requires forall k :: 0 <= k < |w| ==> w[k] != '.' && w[k] != '/'
    ensures SplitExt(SplitExt(f).0 + w + SplitExt(f).1) == (SplitExt(f).0 + w, SplitExt(f).1)
  {
    var b, e := SplitExt(f).0, SplitExt(f).1;
    var g := b + w + e;
    var sep := RFind(f, '/');
    SplitExtIff(f);
    assert f == b + e;
    assert |b| == RFind(f, '.') && sep < |b|;
    RFindAppend(b, e, '/');
    assert g == b + (w + e);
    RFindAppend(b, w + e, '/');
    var gdot := |b| + |w|;
    assert g[gdot..] == e;
    RFindIs(g, '.', gdot);
    assert g[|b|] == w[0];
    NonDotInExists(g, sep + 1, gdot);
    assert g[..gdot] == b + w;
  }

  lemma GenerateSplitWithoutExtension(f: string, t: int)
    requires SplitExt(f).1 == []
    ensures SplitExt(GenerateUniqueFilename(f, t)) == (f + "_" + IntToString(t), [])
  {
    var mid := "_" + IntToString(t);
    assert forall k :: 0 <= k < |mid| ==> mid[k] != '.' && mid[k] != '/';
    SplitExtAppendWithoutExtension(f, mid);
    assert SplitExt(f).0 == f;
    assert GenerateUniqueFilename(f, t) == f + mid;
    assert f + mid == f + "_" + IntToString(t);
  }

  /** The inserted "_<t>" starts with '_' and holds no '.' or '/'. */
  lemma TimestampSuffix(t: int)
    ensures var mid := "_" + IntToString(t);
      && |mid| > 0 && mid[0] == '_'
      && forall k :: 0 <= k < |mid| ==> mid[k] != '.' && mid[k] != '/'
  {
  }

  /** No whitelisted extension, lower-cased or not, contains '_'. */
  lemma UnderscoreNotAllowed(w: string, i: int)
    requires 0 <= i < |w| && w[i] == '_'
    ensures Lower(w) !in AllowedExtensions
  {
    assert Lower(w)[i] == '_';
  }

  lemma GenerateSplitWithExtension(f: string, t: int)
    requires SplitExt(f).1 != []
    ensures SplitExt(GenerateUniqueFilename(f, t)) == (SplitExt(f).0 + "_" + IntToString(t), SplitExt(f).1)
  {
    var b, e := SplitExt(f).0, SplitExt(f).1;
    var mid := "_" + IntToString(t);
    TimestampSuffix(t);
    SplitExtInsertBeforeExtension(f, mid);
    assert b + "_" + IntToString(t) == b + mid;
    assert GenerateUniqueFilename(f, t) == b + mid + e;
  }

  /** splitext of the generated name gives back the original extension; the timestamp joins the base. */
  lemma GenerateSplitRoundTrip(f: string, t: int)
    ensures SplitExt(GenerateUniqueFilename(f, t)) == (SplitExt(f).0 + "_" + IntToString(t), SplitExt(f).1)
  {
    if SplitExt(f).1 == [] {
      GenerateSplitWithoutExtension(f, t);
    } else {
      GenerateSplitWithExtension(f, t);
    }
  }

  /** At a fixed second `generate_unique_filename` is one-to-one in its argument, the sanitised name: the generated name determines it. */
  lemma GeneratedNamesDistinct(f: string, g: string, t: int)
    requires GenerateUniqueFilename(f, t) == GenerateUniqueFilename(g, t)
    ensures f == g
  {
    var mid := "_" + IntToString(t);
    GeneratedParts(f, t);
    GeneratedParts(g, t);
    SameSplitSameName(f, g, mid);
  }

  /** The parts of the generated name, with the inserted "_<t>" kept as one piece. */
  lemma GeneratedParts(f: string, t: int)
    ensures SplitExt(GenerateUniqueFilename(f, t)).0 == SplitExt(f).0 + ("_" + IntToString(t))
    ensures SplitExt(GenerateUniqueFilename(f, t)).1 == SplitExt(f).1
  {
    GenerateSplitRoundTrip(f, t);
    ConcatAssoc(SplitExt(f).0, "_", IntToString(t));
  }

  lemma ConcatAssoc(a: string, b: string, c: string)
    ensures a + b + c == a + (b + c)
  {
  }

  /** Two names whose splitext parts agree once `w` is appended to each base are equal. */
  lemma SameSplitSameName(f: string, g: string, w: string)
    requires SplitExt(f).0 + w == SplitExt(g).0 + w && SplitExt(f).1 == SplitExt(g).1
    ensures f == g
  {
    CancelSuffix(SplitExt(f).0, SplitExt(g).0, w);
  }

  /** A common suffix cancels. */
  lemma CancelSuffix(a: string, b: string, w: string)
    requires a + w == b + w
    ensures a == b
  {
    assert a == (a + w)[..|a|];
    assert b == (b + w)[..|b|];
  }

  /** With an extension, the generated name passes `allowed_file` exactly when the original does. */
  lemma GeneratedAllowedWithExtension(f: string, t: int)
    requires SplitExt(f).1 != []
    ensures AllowedFile(GenerateUniqueFilename(f, t)) <==> AllowedFile(f)
  {
    var b, e := SplitExt(f).0, SplitExt(f).1;
    var mid := "_" + IntToString(t);
    assert GenerateUniqueFilename(f, t) == (b + mid) + e;
    AllowedFileOfSuffix(b, e);
    AllowedFileOfSuffix(b + mid, e);
  }

  /** Without an extension, "_t" lands after the last dot, so the generated name never passes. */
  lemma GeneratedRefusedWithoutExtension(f: string, t: int)
    requires SplitExt(f).1 == []
    ensures !AllowedFile(GenerateUniqueFilename(f, t))
  {
    var mid := "_" + IntToString(t);
    TimestampSuffix(t);
    assert SplitExt(f).0 == f;
    assert GenerateUniqueFilename(f, t) == f + mid + [];
    assert f + mid + [] == f + mid;
    RefusedAfterUnderscoreSuffix(f, mid);
  }

  /** Appending dot-free text that starts with '_' puts a '_' after the last dot. */
  lemma RefusedAfterUnderscoreSuffix(f: string, w: string)
    requires |w| > 0 && w[0] == '_'
    requires forall k :: 0 <= k < |w| ==> w[k] != '.' && w[k] != '/'
    ensures !AllowedFile(f + w)
  {
    RFindAppend(f, w, '.');
    assert (f + w)[|f|] == '_';
    RefusedWithUnderscoreAfterLastDot(f + w, |f|);
  }

  /** A '_' after the last '.' rules the name out. */
  lemma RefusedWithUnderscoreAfterLastDot(g: string, i: int)
    requires RFind(g, '.') < i < |g| && g[i] == '_'
    ensures !AllowedFile(g)
  {
    if RFind(g, '.') >= 0 {
      UnderscoreInTail(g, RFind(g, '.'), i);
    }
  }

  /** A '_' after position `r` keeps the text after `r` out of the whitelist. */
  lemma UnderscoreInTail(g: string, r: int, i: int)
    requires 0 <= r < i < |g| && g[i] == '_'
    ensures Lower(g[r + 1..]) !in AllowedExtensions
  {
    var tail := g[r + 1..];
    assert tail[i - r - 1] == '_';
    UnderscoreNotAllowed(tail, i - r - 1);
  }

  /**
   * The generated name passes `allowed_file` iff the original had a
   * (non-empty) splitext extension and itself passed. So "..png", which
   * passes, is stored as "..png_t", which does not.
   */
  lemma GeneratedAllowedIff(f: string, t: int)
    ensures AllowedFile(GenerateUniqueFilename(f, t)) <==> SplitExt(f).1 != [] && AllowedFile(f)
  {
    if SplitExt(f).1 != [] {
      GeneratedAllowedWithExtension(f, t);
    } else {
      GeneratedRefusedWithoutExtension(f, t);
    }
  }

  /** A name that splits at its last dot gets the timestamp between base and extension. */
  lemma GenerateOfParts(base: string, ext: string, t: int)
    requires exists k :: 0 <= k < |base| && base[k] != '.'
    requires forall k :: 0 <= k < |base| ==> base[k] != '/'
    requires forall k :: 0 <= k < |ext| ==> ext[k] != '.' && ext[k] != '/'
    ensures GenerateUniqueFilename(base + "." + ext, t) == base + "_" + IntToString(t) + "." + ext
  {
    SplitExtOfParts(base, ext);
  }

  /** `generate_unique_filename("photo.png")` at second 42 is "photo_42.png". */
  lemma GenerateOrdinary()
    ensures GenerateUniqueFilename("photo.png", 42) == "photo_42.png"
  {
    assert "photo"[0] != '.';
    GenerateOfParts("photo", "png", 42);
    assert "photo" + "." + "png" == "photo.png";
    assert IntToString(42) == "42";
    assert "photo" + "_" + "42" + "." + "png" == "photo_42.png";
  }

  /** A dotfile keeps its name whole: ".bashrc" at second 42 becomes ".bashrc_42". */
  lemma GenerateDotfile()
    ensures GenerateUniqueFilename(".bashrc", 42) == ".bashrc_42"
  {
    SplitExtDotfile();
    assert IntToString(42) == "42";
  }

  // ----- the URL file name -----

  /** The basename of a URL path is empty exactly when the path is empty or ends in '/'; then "image.jpg" is used. */
  lemma UrlOriginalFilenameFallback(path: string)
    ensures Basename(path) == [] <==> path == [] || path[|path| - 1] == '/'
    ensures UrlOriginalFilename(path) == if Basename(path) == [] then "image.jpg" else Basename(path)
  {
  }

  // ----- the upload decision -----

  /** Which response goes with which request, in both directions. */
  lemma OutcomeClassification(folder: Folder, req: Request, env: Env, now: int)
    ensures var r := Outcome(folder, req, env, now).result;
      && (r == Rejected(NoFileOrUrl) <==> req.url.None? && req.image.None?)
      && (r == Rejected(DownloadFailed) <==> req.url.Some? && env.get(req.url.value).status != 200)
      && (r == Rejected(NoFileSelected) <==>
            req.url.None? && req.image.Some? && req.image.value.filename == "")
      && (r == Rejected(TypeNotAllowed) <==>
            req.url.None? && req.image.Some? && req.image.value.filename != ""
            && !AllowedFile(req.image.value.filename))
      && (r == Rejected(NotAnImage) <==>
            TargetName(req, env, now).Some? && !IsImageMime(env.sniffMime(Payload(req, env))))
      && (r.Uploaded? <==>
            TargetName(req, env, now).Some? && IsImageMime(env.sniffMime(Payload(req, env))))
  {
  }

  /** The response does not depend on what the folder held before. */
  lemma ResultIgnoresFolder(f1: Folder, f2: Folder, req: Request, env: Env, now: int)
    ensures Outcome(f1, req, env, now).result == Outcome(f2, req, env, now).result
  {
  }

  /** Submitting a rejected request again gives the same error and changes nothing more. */
  lemma RejectionRepeats(folder: Folder, req: Request, env: Env, now: int)
    requires Outcome(folder, req, env, now).result.Rejected?
    ensures var o := Outcome(folder, req, env, now);
      Outcome(o.folder, req, env, now) == o
  {
    var o := Outcome(folder, req, env, now);
    if o.result == Rejected(NotAnImage) {
      var n := TargetName(req, env, now).value;
      var o2 := Outcome(o.folder, req, env, now);
      assert o2.folder == o.folder - {n};
      assert o.folder - {n} == o.folder;
    }
  }

  /**
   * A rejected request stays rejected with the same error at any later
   * second and whatever the folder then holds, as long as the fetch and the
   * sniff give the same answers; only a failed sniff touches the folder,
   * and it removes the name generated for that second.
   */
  lemma RejectionRepeatsLater(folder: Folder, later: Folder, req: Request, env: Env, now: int, now2: int)
    requires Outcome(folder, req, env, now).result.Rejected?
    ensures var o2 := Outcome(later, req, env, now2);
      && o2.result == Outcome(folder, req, env, now).result
      && (o2.result.error != NotAnImage ==> o2.folder == later)
      && (o2.result.error == NotAnImage ==> o2.folder == later - {TargetName(req, env, now2).value})
  {
    OutcomeClassification(folder, req, env, now);
    OutcomeClassification(later, req, env, now2);
    assert TargetName(req, env, now).Some? <==> TargetName(req, env, now2).Some?;
  }

  /** A rejection leaves the folder exactly as it was when no file of the target name existed before. */
  lemma RejectionRestoresFreshFolder(folder: Folder, req: Request, env: Env, now: int)
    requires Outcome(folder, req, env, now).result.Rejected?
    requires TargetName(req, env, now).Some? ==> TargetName(req, env, now).value !in folder
    ensures Outcome(folder, req, env, now).folder == folder
  {
    if Outcome(folder, req, env, now).result == Rejected(NotAnImage) {
      assert folder - {TargetName(req, env, now).value} == folder;
    }
  }

  /**
   * The removal is not a restore: when the target name was already taken
   * (an earlier upload of the same name in the same second), a file that
   * fails the sniff deletes that earlier file too.
   */
  lemma FailedSniffDeletesEarlierFile(folder: Folder, req: Request, env: Env, now: int)
    requires TargetName(req, env, now).Some? && TargetName(req, env, now).value in folder
    requires !IsImageMime(env.sniffMime(Payload(req, env)))
    ensures var o := Outcome(folder, req, env, now);
      && o.result == Rejected(NotAnImage)
      && TargetName(req, env, now).value !in o.folder
      && o.folder != folder
  {
  }

  /**
   * Two successful uploads that target the same name leave only the second
   * payload under it: the second write replaces the first file, and both
   * responses carry the same name and URL.
   */
  lemma SecondUploadReplaces(folder: Folder, r1: Request, r2: Request, env: Env, now: int)
    requires Outcome(folder, r1, env, now).result.Uploaded?
    requires Outcome(Outcome(folder, r1, env, now).folder, r2, env, now).result.Uploaded?
    requires TargetName(r1, env, now) == TargetName(r2, env, now)
    ensures var o1 := Outcome(folder, r1, env, now);
      var o2 := Outcome(o1.folder, r2, env, now);
      && o2.result == o1.result
      && o2.folder == folder[TargetName(r2, env, now).value := Payload(r2, env)]
  {
    var o1 := Outcome(folder, r1, env, now);
    var o2 := Outcome(o1.folder, r2, env, now);
    var n := o1.result.filename;
    assert o2.result.filename == n;
    assert o1.folder == folder[n := Payload(r1, env)];
    assert o2.folder == o1.folder[n := Payload(r2, env)];
    MapOverwrite(folder, n, Payload(r1, env), Payload(r2, env));
  }

  /** A second write to a key replaces the first. */
  lemma MapOverwrite(m: Folder, k: string, v1: seq<byte>, v2: seq<byte>)
    ensures m[k := v1][k := v2] == m[k := v2]
  {
  }

  /**
   * With a sanitiser that leaves "cat.png" alone, two image uploads of
   * "cat.png" in second 7 are both stored as "cat_7.png", and only the
   * second one's bytes remain.
   */
  lemma CatUploadsCollide(folder: Folder, env: Env, d1: seq<byte>, d2: seq<byte>)
    requires env.secureFilename("cat.png") == "cat.png"
    requires IsImageMime(env.sniffMime(d1)) && IsImageMime(env.sniffMime(d2))
    ensures var o1 := Outcome(folder, Request(None, Some(FilePart("cat.png", d1))), env, 7);
      var o2 := Outcome(o1.folder, Request(None, Some(FilePart("cat.png", d2))), env, 7);
      && o1.result.Uploaded? && o1.result.filename == "cat_7.png"
      && o2.result == o1.result
      && o2.folder == folder["cat_7.png" := d2]
  {
    var r1 := Request(None, Some(FilePart("cat.png", d1)));
    var r2 := Request(None, Some(FilePart("cat.png", d2)));
    SameSecondCollision();
    assert TargetName(r1, env, 7) == Some("cat_7.png");
    assert TargetName(r2, env, 7) == Some("cat_7.png");
    var o1 := Outcome(folder, r1, env, 7);
    assert o1.result.Uploaded?;
    assert Outcome(o1.folder, r2, env, 7).result.Uploaded?;
    SecondUploadReplaces(folder, r1, r2, env, 7);
  }

  /** "cat.png" passes `allowed_file` and at second 7 is renamed "cat_7.png". */
  lemma SameSecondCollision()
    ensures AllowedFile("cat.png")
    ensures GenerateUniqueFilename("cat.png", 7) == "cat_7.png"
  {
    CatAllowed();
    CatName();
  }

  lemma CatAllowed()
    ensures AllowedFile("cat.png")
  {
    AllowedFileOfParts("cat", "png");
    assert "cat" + "." + "png" == "cat.png";
    assert LowerChar('p') == 'p' && LowerChar('n') == 'n' && LowerChar('g') == 'g';
    LowerIs("png", "png");
  }

  lemma CatName()
    ensures GenerateUniqueFilename("cat.png", 7) == "cat_7.png"
  {
    assert "cat"[0] != '.';
    GenerateOfParts("cat", "png", 7);
    assert "cat" + "." + "png" == "cat.png";
    assert IntToString(7) == "7";
    assert "cat" + "_" + "7" + "." + "png" == "cat_7.png";
  }

  /** A URL whose path ends in '/' is stored under the sanitised "image.jpg" with the timestamp. */
  lemma UrlFallbackName(env: Env, url: string, now: int)
    requires env.urlPath(url) == [] || env.urlPath(url)[|env.urlPath(url)| - 1] == '/'
    ensures UrlTargetName(env, url, now) == GenerateUniqueFilename(env.secureFilename("image.jpg"), now)
  {
    UrlOriginalFilenameFallback(env.urlPath(url));
  }

  /**
   * Two URLs whose paths both end in '/' (or are empty) get the same target
   * name in the same second, whatever their hosts: both fall back to
   * "image.jpg".
   */
  lemma UrlFallbackCollides(env: Env, u1: string, u2: string, now: int)
    requires env.urlPath(u1) == [] || env.urlPath(u1)[|env.urlPath(u1)| - 1] == '/'
    requires env.urlPath(u2) == [] || env.urlPath(u2)[|env.urlPath(u2)| - 1] == '/'
    ensures UrlTargetName(env, u1, now) == UrlTargetName(env, u2, now)
  {
    FallbackBasenames(env.urlPath(u1), env.urlPath(u2));
    EmptyBasenamesSameTarget(env, u1, u2, now);
  }

  lemma FallbackBasenames(p1: string, p2: string)
    requires p1 == [] || p1[|p1| - 1] == '/'
    requires p2 == [] || p2[|p2| - 1] == '/'
    ensures Basename(p1) == [] && Basename(p2) == []
  {
    UrlOriginalFilenameFallback(p1);
    UrlOriginalFilenameFallback(p2);
  }

  lemma EmptyBasenamesSameTarget(env: Env, u1: string, u2: string, now: int)
    requires Basename(env.urlPath(u1)) == [] && Basename(env.urlPath(u2)) == []
    ensures UrlTargetName(env, u1, now) == UrlTargetName(env, u2, now)
  {
  }

  /** Within one second, two URL uploads target the same name iff their sanitised file names agree. */
  lemma UrlTargetNamesCollideIff(env: Env, u1: string, u2: string, now: int)
    ensures UrlTargetName(env, u1, now) == UrlTargetName(env, u2, now) <==>
      env.secureFilename(UrlOriginalFilename(env.urlPath(u1))) ==
      env.secureFilename(UrlOriginalFilename(env.urlPath(u2)))
  {
    if UrlTargetName(env, u1, now) == UrlTargetName(env, u2, now) {
      GeneratedNamesDistinct(env.secureFilename(UrlOriginalFilename(env.urlPath(u1))),
                             env.secureFilename(UrlOriginalFilename(env.urlPath(u2))), now);
    }
  }

  /** Within one second, two file uploads target the same name iff `secure_filename` maps their names alike. */
  lemma FileTargetNamesCollideIff(env: Env, a: string, b: string, now: int)
    ensures FileTargetName(env, a, now) == FileTargetName(env, b, now) <==>
      env.secureFilename(a) == env.secureFilename(b)
  {
    if FileTargetName(env, a, now) == FileTargetName(env, b, now) {
      GeneratedNamesDistinct(env.secureFilename(a), env.secureFilename(b), now);
    }
  }

  // ----- the response -----

  /** The upload answers 200 exactly when it succeeds, and 400 for every rejection. */
  lemma OutcomeStatus(folder: Folder, req: Request, env: Env, now: int)
    ensures var r := Outcome(folder, req, env, now).result;
      && (r.StatusCode() == 200 <==>
            TargetName(req, env, now).Some? && IsImageMime(env.sniffMime(Payload(req, env))))
      && (r.StatusCode() == 400 <==> r.Rejected?)
  {
    OutcomeClassification(folder, req, env, now);
  }

  /** The five rejections carry five different error texts, so a client can tell them apart. */
  lemma ErrorMessagesDistinct(e1: UploadError, e2: UploadError)
    requires e1 != e2
    ensures e1.Message() != e2.Message()
  {
    MessageKey(e1);
    MessageKey(e2);
  }

  /** Characters 0, 1 and 8 of an error text tell the five errors apart. */
  lemma MessageKey(e: UploadError)
    ensures |e.Message()| > 8
    ensures e.DownloadFailed? <==> e.Message()[1] == 'a'
    ensures e.NotAnImage? <==> e.Message()[0] == 'U'
    ensures e.TypeNotAllowed? <==> e.Message()[1] == 'i'
    ensures e.NoFileSelected? <==> e.Message()[8] == 's'
    ensures e.NoFileOrUrl? <==> e.Message()[0] == 'N' && e.Message()[8] == 'o'
  {
  }

  /** With `BASE_URL` unset the response URL starts with the text "None". */
  lemma UnsetBaseUrl(folder: Folder, req: Request, env: Env, now: int)
    requires env.baseUrl.None?
    requires Outcome(folder, req, env, now).result.Uploaded?
    ensures var r := Outcome(folder, req, env, now).result;
      r.url == "None/images/" + r.filename
  {
    var r := Outcome(folder, req, env, now).result;
    UnsetBaseUrlText(env, r.filename, r.url);
  }

  lemma UnsetBaseUrlText(env: Env, name: string, url: string)
    requires env.baseUrl.None?
    requires url == BaseUrlText(env) + "/images/" + name
    ensures url == "None/images/" + name
  {
    assert "None" + "/images/" == "None/images/";
  }

  // ----- list_images -----

  /** An entry is listed iff it names a stored file passing `allowed_file`, with its URL, size and time. */
  lemma ListingMembership(folder: Folder, created: string -> int, x: ImageInfo)
    ensures x in Listing(folder, created) <==>
      && x.name in folder && AllowedFile(x.name)
      && x.url == "/images/" + x.name && x.size == |folder[x.name]| && x.created == created(x.name)
  {
    if x.name in folder && AllowedFile(x.name) && x == InfoOf(folder, x.name, created) {
      assert x in Listing(folder, created);
    }
  }

  /** A stored file is listed iff its name passes `allowed_file`. */
  lemma StoredFileListedIff(folder: Folder, created: string -> int, name: string)
    requires name in folder
    ensures InfoOf(folder, name, created) in Listing(folder, created) <==> AllowedFile(name)
  {
    ListingMembership(folder, created, InfoOf(folder, name, created));
  }

  /**
   * A successful file upload is listed iff the sanitised name has a
   * splitext extension and passes `allowed_file`; the check on the raw
   * name does not guarantee it.
   */
  lemma FileUploadListedIff(folder: Folder, part: FilePart, env: Env, now: int, created: string -> int)
    requires Outcome(folder, Request(None, Some(part)), env, now).result.Uploaded?
    ensures var o := Outcome(folder, Request(None, Some(part)), env, now);
      var s := env.secureFilename(part.filename);
      InfoOf(o.folder, o.result.filename, created) in Listing(o.folder, created) <==>
        SplitExt(s).1 != [] && AllowedFile(s)
  {
    var o := Outcome(folder, Request(None, Some(part)), env, now);
    StoredFileListedIff(o.folder, created, o.result.filename);
    GeneratedAllowedIff(env.secureFilename(part.filename), now);
  }

  /**
   * The URL branch never consults `allowed_file`: whenever the download
   * succeeds and the bytes sniff as an image the upload is accepted, and
   * the stored file is listed only when the sanitised name has a
   * whitelisted extension.
   */
  lemma UrlUploadSkipsWhitelist(folder: Folder, url: string, env: Env, now: int, created: string -> int)
    requires env.get(url).status == 200
    requires IsImageMime(env.sniffMime(Concat(env.get(url).chunks)))
    ensures var o := Outcome(folder, Request(Some(url), None), env, now);
      var n := UrlTargetName(env, url, now);
      var s := env.secureFilename(UrlOriginalFilename(env.urlPath(url)));
      && o.result == Uploaded(n, PublicUrl(env, n))
      && (InfoOf(o.folder, n, created) in Listing(o.folder, created) <==>
            SplitExt(s).1 != [] && AllowedFile(s))
  {
    var o := Outcome(folder, Request(Some(url), None), env, now);
    var n := UrlTargetName(env, url, now);
    StoredFileListedIff(o.folder, created, n);
    GeneratedAllowedIff(env.secureFilename(UrlOriginalFilename(env.urlPath(url))), now);
  }

  /** "notes.txt" at second 7 is stored as "notes_7.txt", which `allowed_file` refuses. */
  lemma UrlTextExample()
    ensures GenerateUniqueFilename("notes.txt", 7) == "notes_7.txt"
    ensures !AllowedFile("notes_7.txt")
  {
    UrlTextName();
    UrlTextRefused();
  }

  lemma UrlTextName()
    ensures GenerateUniqueFilename("notes.txt", 7) == "notes_7.txt"
  {
    assert "notes"[0] != '.';
    GenerateOfParts("notes", "txt", 7);
    assert "notes" + "." + "txt" == "notes.txt";
    assert IntToString(7) == "7";
    assert "notes" + "_" + "7" + "." + "txt" == "notes_7.txt";
  }

  lemma UrlTextRefused()
    ensures !AllowedFile("notes_7.txt")
  {
    AllowedFileOfParts("notes_7", "txt");
    assert "notes_7" + "." + "txt" == "notes_7.txt";
    NotWhitelistedByInitial(Lower("txt"));
  }

  /** No whitelisted extension starts with a letter other than 'p', 'j', 'g' or 'w'. */
  lemma NotWhitelistedByInitial(w: string)
    requires |w| > 0 && w[0] != 'p' && w[0] != 'j' && w[0] != 'g' && w[0] != 'w'
    ensures w !in AllowedExtensions
  {
  }

  /** No two listed entries share a name. */
  lemma ListingNamesUnique(folder: Folder, created: string -> int, x: ImageInfo, y: ImageInfo)
    requires x in Listing(folder, created) && y in Listing(folder, created)
    requires x.name == y.name
    ensures x == y
  {
  }
}
