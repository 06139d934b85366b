/** The validation that `transcribe_audio_file` (commands/file_transcription.rs, lines 44-70)
    performs before it decodes anything: the file must exist and its extension, lowercased, must
    be one of the supported ones; the result carries the file's name. Paths are Unix paths
    given as strings, as the command receives them. */
module FileTranscription {
  import opened Results

  /** The accepted extensions, in the order the error message lists them. */
  const SUPPORTED_EXTENSIONS: seq<string> := ["wav", "mp3", "flac", "m4a", "aac", "ogg", "oga"]

  /** The path cut at every '/': "a//b/" gives ["a", "", "b", ""]. */
  function Split(path: string): (parts: seq<string>)
    ensures |parts| >= 1
    decreases |path|
  {
    if path == [] then [""]
    else
      var rest := Split(path[1..]);
      if path[0] == '/' then [""] + rest else [[path[0]] + rest[0]] + rest[1..]
  }

  /** The normal components among `parts`: empty parts (from the root, repeated or trailing
      separators) and "." are normalised away. ".." is kept. */
  function NormalParts(parts: seq<string>): (names: seq<string>)
    ensures forall name :: name in names ==> name != "" && name != "."
  {
    if parts == [] then []
    else (if parts[0] == "" || parts[0] == "." then [] else [parts[0]]) + NormalParts(parts[1..])
  }

  /** `Path::file_name`: the final component, unless there is none or it is "..". */
  function FileName(path: string): Option<string>
  {
    var names := NormalParts(Split(path));
    if names == [] || names[|names| - 1] == ".." then None else Some(names[|names| - 1])
  }

  /** The index of the last '.' in `name`, if any. */
  function LastDot(name: string): (r: Option<nat>)
    ensures r.Some? ==> r.value < |name| && name[r.value] == '.' && '.' !in name[r.value + 1..]
    ensures r.None? ==> '.' !in name
  {
    if name == [] then None
    else if name[|name| - 1] == '.' then Some(|name| - 1)
    else
      var r := LastDot(name[..|name| - 1]);
      assert name == name[..|name| - 1] + [name[|name| - 1]];
      r
  }

  /** `Path::extension`: what follows the last '.' of the file name, unless the name has no '.'
      or its only '.' is the first character (a hidden file such as ".ogg"). */
  function Extension(path: string): Option<string>
  {
    match FileName(path)
    case None => None
    case Some(name) =>
      match LastDot(name)
      case None => None
      case Some(i) => if i == 0 then None else Some(name[i + 1..])
  }

  /** ASCII lowercase of one character. */
  function LowerChar(c: char): char
  {
    if 'A' <= c <= 'Z' then (c as int + 32) as char else c
  }

  /** ASCII uppercase of one character. */
  function UpperChar(c: char): char
  {
    if 'a' <= c <= 'z' then (c as int - 32) as char else c
  }

  /** `to_lowercase`, on ASCII letters. */
  function ToLower(s: string): (r: string)
    ensures |r| == |s|
  {
    if s == [] then [] else [LowerChar(s[0])] + ToLower(s[1..])
  }

  /** ASCII uppercase of a string. */
  function ToUpper(s: string): (r: string)
    ensures |r| == |s|
  {
    if s == [] then [] else [UpperChar(s[0])] + ToUpper(s[1..])
  }

  /** `extension().and_then(to_str).map(to_lowercase).unwrap_or_default()`. The path is a
      Rust `String`, so `to_str` always succeeds: a missing extension gives "". */
  function LowercaseExtension(path: string): (r: string)
    ensures Extension(path).None? ==> r == ""
  {
    match Extension(path)
    case None => ""
    case Some(ext) => ToLower(ext)
  }

  /** `items.join(sep)` */
  function Join(items: seq<string>, sep: string): string
  {
    if items == [] then ""
    else if |items| == 1 then items[0]
    else items[0] + sep + Join(items[1..], sep)
  }

  /** Why a path is refused. */
  datatype Rejection = FileNotFound(path: string) | UnsupportedFormat(extension: string)

  /** The error text the command returns for a rejection. */
  function RejectionMessage(e: Rejection): string
  {
    match e
    case FileNotFound(path) => "File not found: " + path
    case UnsupportedFormat(extension) =>
      "Unsupported audio format: ." + extension + ". Supported: " + Join(SUPPORTED_EXTENSIONS, ", ")
  }

  /** The validation prefix of `transcribe_audio_file`. `present` is what `Path::exists` reports
      for the path. On success it gives the file name the result will carry; on failure the
      reason, whose text is `RejectionMessage`. */
  function Validate(path: string, present: bool): (r: Result<string, Rejection>)
    ensures !present ==> r == Err(FileNotFound(path))
    ensures present && LowercaseExtension(path) !in SUPPORTED_EXTENSIONS ==>
              r == Err(UnsupportedFormat(LowercaseExtension(path)))
    ensures r.Ok? <==> present && LowercaseExtension(path) in SUPPORTED_EXTENSIONS
    ensures r.Ok? ==> FileName(path).Some? && r.value == FileName(path).value
  {
    if !present then Err(FileNotFound(path))
    else
      var extension := LowercaseExtension(path);
      if extension !in SUPPORTED_EXTENSIONS then Err(UnsupportedFormat(extension))
      else Ok(match FileName(path) case None => "unknown" case Some(name) => name)
  }

  /** The list the rejection message shows. */
  lemma SupportedListText()
    ensures Join(SUPPORTED_EXTENSIONS, ", ") == "wav, mp3, flac, m4a, aac, ogg, oga"
  {
  }

  /** The two error texts: the missing path, and the lowercased extension followed by the
      supported list joined with ", ". */
  lemma RejectionText(path: string, extension: string)
    ensures RejectionMessage(FileNotFound(path)) == "File not found: " + path
    ensures RejectionMessage(UnsupportedFormat(extension)) ==
              "Unsupported audio format: ." + extension + ". Supported: " +
              "wav, mp3, flac, m4a, aac, ogg, oga"
  {
    SupportedListText();
  }

  /** No part of a split path contains a separator. */
  lemma {:induction false} SplitHasNoSeparator(path: string)
    ensures forall part :: part in Split(path) ==> '/' !in part
    decreases |path|
  {
    if path != [] {
      SplitHasNoSeparator(path[1..]);
      var rest := Split(path[1..]);
      assert rest[0] in rest;
      forall part | part in rest[1..] ensures part in rest { }
    }
  }

  lemma {:induction false} NormalPartsAreParts(parts: seq<string>)
    ensures forall name :: name in NormalParts(parts) ==> name in parts
  {
    if parts != [] {
      NormalPartsAreParts(parts[1..]);
    }
  }

  /** A file name is one normal component of the path: not empty, not "." or "..", and free of
      separators. */
  lemma FileNameIsComponent(path: string)
    requires FileName(path).Some?
    ensures var name := FileName(path).value;
            name != "" && name != "." && name != ".." && '/' !in name
  {
    var names := NormalParts(Split(path));
    SplitHasNoSeparator(path);
    NormalPartsAreParts(Split(path));
    assert names[|names| - 1] in names;
  }

  /** An extension is the text after a '.' that ends the file name, is not its first character
      and is followed by no other '.'; there is none exactly when the file name has no '.'
      after its first character. */
  lemma ExtensionIsSuffix(path: string)
    ensures Extension(path).Some? ==>
              FileName(path).Some? &&
              var name, ext := FileName(path).value, Extension(path).value;
              '.' !in ext && |ext| + 1 < |name| && name[|name| - |ext| - 1..] == "." + ext
    ensures Extension(path).None? <==>
              FileName(path).None? ||
              forall i :: 1 <= i < |FileName(path).value| ==> FileName(path).value[i] != '.'
  {
    if FileName(path).Some? {
      var name := FileName(path).value;
      var dot := LastDot(name);
      if dot.Some? {
        var i := dot.value;
        if i == 0 {
          forall j | 1 <= j < |name| ensures name[j] != '.' {
            assert name[1..][j - 1] == name[j];
          }
        } else {
          assert name[i..] == "." + name[i + 1..];
        }
      }
    }
  }

  /** Splitting distributes over a separator. */
  lemma {:induction false} SplitAtSeparator(dir: string, rest: string)
    ensures Split(dir + "/" + rest) == Split(dir) + Split(rest)
    decreases |dir|
  {
    if dir == [] {
      assert dir + "/" + rest == "/" + rest;
      assert ("/" + rest)[1..] == rest;
    } else {
      var tail := dir[1..];
      assert (dir + "/" + rest)[0] == dir[0];
      assert (dir + "/" + rest)[1..] == tail + "/" + rest;
      SplitAtSeparator(tail, rest);
    }
  }

  /** A name without separators is a single part. */
  lemma {:induction false} SplitName(name: string)
    requires '/' !in name
    ensures Split(name) == [name]
    decreases |name|
  {
    if name != [] {
      SplitName(name[1..]);
      assert [name[0]] + name[1..] == name;
    }
  }

  lemma {:induction false} NormalPartsConcat(a: seq<string>, b: seq<string>)
    ensures NormalParts(a + b) == NormalParts(a) + NormalParts(b)
    decreases |a|
  {
    if a == [] {
      assert a + b == b;
    } else {
      assert (a + b)[0] == a[0];
      assert (a + b)[1..] == a[1..] + b;
      NormalPartsConcat(a[1..], b);
    }
  }

  /** The file name of `dir/name` is `name`, whatever `dir` is. */
  lemma FileNameOfChild(dir: string, name: string)
    requires '/' !in name && name != "" && name != "." && name != ".."
    ensures FileName(dir + "/" + name) == Some(name)
  {
    SplitAtSeparator(dir, name);
    SplitName(name);
    NormalPartsConcat(Split(dir), [name]);
    assert NormalParts([name]) == [name];
  }

  /** A directory prefix of a path: nothing (a bare relative name) or text ending in '/'. */
  predicate DirPrefix(prefix: string)
  {
    prefix == "" || prefix[|prefix| - 1] == '/'
  }

  /** The file name of `prefix + name` is `name`, for a bare name as well as under a directory. */
  lemma FileNameOfName(prefix: string, name: string)
    requires DirPrefix(prefix)
    requires '/' !in name && name != "" && name != "." && name != ".."
    ensures FileName(prefix + name) == Some(name)
  {
    if prefix == "" {
      assert prefix + name == name;
      SplitName(name);
      assert NormalParts([name]) == [name];
    } else {
      var dir := prefix[..|prefix| - 1];
      assert prefix + name == dir + "/" + name;
      FileNameOfChild(dir, name);
    }
  }

  /** In `stem.ext` with no '.' in `ext`, the last '.' is the one after the stem. */
  lemma {:induction false} LastDotBeforeExtension(stem: string, ext: string)
    requires '.' !in ext
    ensures LastDot(stem + "." + ext) == Some(|stem|)
    decreases |ext|
  {
    var name := stem + "." + ext;
    if ext == [] {
      assert name[|name| - 1] == '.';
    } else {
      var init := ext[..|ext| - 1];
      assert name[|name| - 1] == ext[|ext| - 1];
      assert name[..|name| - 1] == stem + "." + init;
      LastDotBeforeExtension(stem, init);
    }
  }

  lemma DottedNameHasNoSlash(stem: string, ext: string)
    requires '/' !in stem && '/' !in ext
    ensures '/' !in stem + "." + ext
  {
    var name := stem + "." + ext;
    forall i | 0 <= i < |name| ensures name[i] != '/' {
      if i < |stem| { assert name[i] == stem[i]; }
      else if i > |stem| { assert name[i] == ext[i - |stem| - 1]; }
    }
  }

  /** The extension of `prefix + stem.ext` is `ext` when the stem is not empty. */
  lemma ExtensionOfName(prefix: string, stem: string, ext: string)
    requires DirPrefix(prefix)
    requires '/' !in stem && '/' !in ext && '.' !in ext
    requires stem != "" && stem + "." + ext != ".."
    ensures FileName(prefix + stem + "." + ext) == Some(stem + "." + ext)
    ensures Extension(prefix + stem + "." + ext) == Some(ext)
  {
    var name := stem + "." + ext;
    DottedNameHasNoSlash(stem, ext);
    assert prefix + stem + "." + ext == prefix + name;
    FileNameOfName(prefix, name);
    LastDotBeforeExtension(stem, ext);
    assert name[|stem| + 1..] == ext;
  }

  /** A hidden file such as `.ogg` (a leading '.' and no other) has no extension, so it is
      rejected whatever follows the dot. */
  lemma HiddenFileRejected(prefix: string, rest: string)
    requires DirPrefix(prefix)
    requires '/' !in rest && '.' !in rest && rest != ""
    ensures Extension(prefix + "." + rest) == None
    ensures Validate(prefix + "." + rest, true) == Err(UnsupportedFormat(""))
  {
    var name := "." + rest;
    DottedNameHasNoSlash("", rest);
    assert "" + "." + rest == name;
    assert name[1] == rest[0] && rest[0] != '.';
    assert prefix + "." + rest == prefix + name;
    FileNameOfName(prefix, name);
    LastDotBeforeExtension("", rest);
    assert Extension(prefix + "." + rest) == None;
    assert LowercaseExtension(prefix + "." + rest) == "";
    assert "" !in SUPPORTED_EXTENSIONS;
  }

  /** Lowercasing twice is lowercasing once. */
  lemma {:induction false} LowerIdempotent(s: string)
    ensures ToLower(ToLower(s)) == ToLower(s)
  {
    if s != [] {
      LowerIdempotent(s[1..]);
    }
  }

  /** Uppercasing and then lowercasing is lowercasing. */
  lemma {:induction false} LowerOfUpper(s: string)
    ensures ToLower(ToUpper(s)) == ToLower(s)
  {
    if s != [] {
      LowerOfUpper(s[1..]);
    }
  }

  /** The extension compared against the list is already in lowercase. */
  lemma LowercaseExtensionIsLower(path: string)
    ensures ToLower(LowercaseExtension(path)) == LowercaseExtension(path)
  {
    if Extension(path).Some? {
      LowerIdempotent(Extension(path).value);
    }
  }

  /** Uppercasing creates no '.' and no '/'. */
  lemma {:induction false} UpperKeepsPunctuation(s: string)
    ensures ('.' in ToUpper(s)) == ('.' in s)
    ensures ('/' in ToUpper(s)) == ('/' in s)
  {
    if s != [] {
      UpperKeepsPunctuation(s[1..]);
      assert ToUpper(s) == [UpperChar(s[0])] + ToUpper(s[1..]);
      assert s == [s[0]] + s[1..];
    }
  }

  /** What validation looks at in `prefix + stem.ext`: the file name `stem.ext` and the
      lowercased `ext`. */
  lemma DottedNameParts(prefix: string, stem: string, ext: string)
    requires DirPrefix(prefix)
    requires '/' !in stem && '/' !in ext && '.' !in ext
    requires stem != "" && stem + "." + ext != ".."
    ensures LowercaseExtension(prefix + stem + "." + ext) == ToLower(ext)
    ensures FileName(prefix + stem + "." + ext) == Some(stem + "." + ext)
  {
    ExtensionOfName(prefix, stem, ext);
  }

  /** An existing `prefix + stem.ext` is accepted exactly when the lowercased `ext` is
      supported, and then the result carries the name `stem.ext`. */
  lemma AcceptedName(prefix: string, stem: string, ext: string)
    requires DirPrefix(prefix)
    requires '/' !in stem && '/' !in ext && '.' !in ext
    requires stem != "" && stem + "." + ext != ".."
    ensures Validate(prefix + stem + "." + ext, true).Ok? <==> ToLower(ext) in SUPPORTED_EXTENSIONS
    ensures Validate(prefix + stem + "." + ext, true).Ok? ==>
              Validate(prefix + stem + "." + ext, true).value == stem + "." + ext
  {
    DottedNameParts(prefix, stem, ext);
  }

  /** The extension check ignores case: `prefix + stem.EXT` is accepted exactly when
      `prefix + stem.ext` is. */
  lemma ExtensionCaseIgnored(prefix: string, stem: string, ext: string, present: bool)
    requires DirPrefix(prefix)
    requires '/' !in stem && '/' !in ext && '.' !in ext
    requires stem != "" && stem + "." + ext != ".."
    ensures Validate(prefix + stem + "." + ToUpper(ext), present).Ok? <==>
            Validate(prefix + stem + "." + ext, present).Ok?
  {
    UpperKeepsPunctuation(ext);
    LowerOfUpper(ext);
    ExtensionOfName(prefix, stem, ext);
    ExtensionOfName(prefix, stem, ToUpper(ext));
  }

  /** The bare name "FILE.WAV" is accepted, with that name. */
  lemma UppercaseNameAccepted(path: string)
    requires path == "FILE.WAV"
    ensures Validate(path, true) == Ok(path)
  {
    var wav := "wav";
    assert wav in SUPPORTED_EXTENSIONS by {
      assert SUPPORTED_EXTENSIONS[0] == wav;
    }
    assert ToLower("WAV") == wav;
    assert path == "" + "FILE" + "." + "WAV" == "FILE" + "." + "WAV";
    AcceptedName("", "FILE", "WAV");
  }

  /** The bare name "file.wav" is accepted, with that name. */
  lemma LowercaseNameAccepted(path: string)
    requires path == "file.wav"
    ensures Validate(path, true) == Ok(path)
  {
    var wav := "wav";
    assert wav in SUPPORTED_EXTENSIONS by {
      assert SUPPORTED_EXTENSIONS[0] == wav;
    }
    assert ToLower(wav) == wav;
    assert path == "" + "file" + "." + wav == "file" + "." + wav;
    AcceptedName("", "file", wav);
  }
}
