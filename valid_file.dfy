/**
 * `is_valid_file` and `file_pattern` (bithou/nodetools.py): a value names a
 * file when it is non-empty and `re.match` of
 * `^[\w/\.\-\@\:\?\$\#]*\.\w+$` succeeds on it.
 *
 * The pattern is given its meaning as a language (MatchesBody,
 * FilePatternMatches); IsValidFile decides it without a regex, through the
 * last `.` of the name, and IsValidFileMatchesPattern proves the two agree.
 */
module ValidFile {
  import opened Wrappers
  import opened ReChars

  /** The punctuation the leading class admits besides `\w`. */
  const PathPunctuation: string := "/.-@:?$#"

  /** `[\w/\.\-\@\:\?\$\#]` */
  predicate IsPathChar(c: char) {
    IsWordChar(c) || c in PathPunctuation
  }

  predicate AllPathChars(t: string) {
    forall j :: 0 <= j < |t| ==> IsPathChar(t[j])
  }

  /** `\w+` */
  predicate IsWordRun(w: string) {
    |w| > 0 && forall j :: 0 <= j < |w| ==> IsWordChar(w[j])
  }

  /** The strings `[\w/\.\-\@\:\?\$\#]*\.\w+` matches in full. */
  ghost predicate MatchesBody(t: string) {
    exists i :: 0 <= i < |t| && t[i] == '.' && AllPathChars(t[..i]) && IsWordRun(t[i + 1..])
  }

  /**
   * The strings the anchored pattern matches under `re.match`: `^` holds at
   * the start, and `$` holds at the end or just before one final newline.
   */
  ghost predicate FilePatternMatches(s: string) {
    MatchesBody(s) || (|s| > 0 && s[|s| - 1] == '\n' && MatchesBody(s[..|s| - 1]))
  }

  /** The part after the last `.` is a non-empty run of word characters. */
  predicate HasExtension(t: string) {
    match LastIndexOf(t, '.')
    case None => false
    case Some(k) => IsWordRun(t[k + 1..])
  }

  /** The regex-free characterisation of a file name. */
  predicate IsFileName(t: string) {
    AllPathChars(t) && HasExtension(t)
  }

  /** The string `$` is checked against: without its one final newline, if any. */
  function StripFinalNewline(s: string): (t: string)
    ensures t == s || (s == t + ['\n'])
  {
    if |s| > 0 && s[|s| - 1] == '\n' then s[..|s| - 1] else s
  }

  /**
   * `is_valid_file(value)`: None and the empty string are rejected before the
   * pattern is consulted; otherwise the name must match `file_pattern`.
   */
  predicate IsValidFile(value: Option<string>)
    ensures value == None || value == Some([]) ==> !IsValidFile(value)
  {
    match value
    case None => false
    case Some(s) => s != [] && IsFileName(StripFinalNewline(s))
  }

  /** A split the body accepts makes its `.` the last one, and the name a file name. */
  lemma BodyMatchIsFileName(t: string, i: nat)
    requires i < |t| && t[i] == '.' && AllPathChars(t[..i]) && IsWordRun(t[i + 1..])
    ensures LastIndexOf(t, '.') == Some(i) && IsFileName(t)
  {
    forall j | i < j < |t|
      ensures IsWordChar(t[j]) && t[j] != '.'
    {
      assert t[j] == t[i + 1..][j - i - 1];
    }
    forall j | 0 <= j < i
      ensures IsPathChar(t[j])
    {
      assert t[j] == t[..i][j];
    }
  }

  /** The leading `[...]*` adds nothing: the body matches exactly the file names. */
  lemma MatchesBodyIff(t: string)
    ensures MatchesBody(t) <==> IsFileName(t)
  {
    if MatchesBody(t) {
      var i :| 0 <= i < |t| && t[i] == '.' && AllPathChars(t[..i]) && IsWordRun(t[i + 1..]);
      BodyMatchIsFileName(t, i);
    }
    if IsFileName(t) {
      var k := LastIndexOf(t, '.').value;
      assert AllPathChars(t[..k]);
    }
  }

  /** `is_valid_file` decides `file_pattern.match`, for every value. */
  lemma IsValidFileMatchesPattern(value: Option<string>)
    ensures IsValidFile(value) <==> value.Some? && value.value != [] && FilePatternMatches(value.value)
  {
    if value.Some? && value.value != [] {
      var s := value.value;
      MatchesBodyIff(s);
      if s[|s| - 1] == '\n' {
        MatchesBodyIff(s[..|s| - 1]);
        assert !IsPathChar(s[|s| - 1]);
      }
    }
  }

  /**
   * An accepted name is made of `\w` and `/ . - @ : ? $ #` only, apart from
   * the one final newline `$` lets through.
   */
  lemma ValidFileChars(s: string)
    requires IsValidFile(Some(s))
    ensures forall j :: 0 <= j < |s| ==> IsPathChar(s[j]) || (j == |s| - 1 && s[j] == '\n')
  {
    var t := StripFinalNewline(s);
    forall j | 0 <= j < |s|
      ensures IsPathChar(s[j]) || (j == |s| - 1 && s[j] == '\n')
    {
      if j < |t| {
        assert s[j] == t[j];
      }
    }
  }

  /**
   * An accepted name contains a `.`, and what follows its last `.` (before
   * the optional final newline) is non-empty and all word characters.
   */
  lemma ValidFileExtension(s: string)
    requires IsValidFile(Some(s))
    ensures '.' in s
    ensures var t := StripFinalNewline(s);
      exists k :: 0 <= k < |t| && t[k] == '.' && (forall j :: k < j < |t| ==> t[j] != '.')
        && IsWordRun(t[k + 1..])
  {
    var t := StripFinalNewline(s);
    var k := LastIndexOf(t, '.').value;
    assert s[k] == t[k];
  }

  /** A name without a `.`, or one that ends in `.`, is rejected. */
  lemma NoExtensionRejected(s: string)
    requires '.' !in s || (|s| > 0 && s[|s| - 1] == '.')
    ensures !IsValidFile(Some(s))
  {
    var t := StripFinalNewline(s);
    if '.' in s {
      assert t == s;
    } else {
      assert '.' !in t;
    }
  }

  /** A name `is_valid_file` accepts. */
  lemma AcceptedExample()
    ensures IsValidFile(Some("$HIP/box.bgeo"))
  {
    var t := "$HIP/box.bgeo";
    assert StripFinalNewline(t) == t;
    forall j | 0 <= j < |t|
      ensures IsPathChar(t[j])
    {
    }
    assert LastIndexOf(t[..9], '.') == Some(8);
    assert LastIndexOf(t, '.') == Some(8);
    assert IsWordRun(t[9..]);
  }

  /** The final newline `$` lets through. */
  lemma TrailingNewlineAccepted()
    ensures IsValidFile(Some("a.txt\n"))
  {
    var s, t := "a.txt\n", "a.txt";
    assert s[..|s| - 1] == t;
    assert LastIndexOf(t, '.') == Some(1);
    assert t[2..] == "txt";
  }

  /** Names `is_valid_file` rejects. */
  lemma RejectedExamples()
    ensures !IsValidFile(Some("a.txt\n\n"))
    ensures !IsValidFile(Some("my file.txt"))
    ensures !IsValidFile(Some("geo."))
    ensures !IsValidFile(Some("geo"))
    ensures !IsValidFile(Some(""))
    ensures !IsValidFile(None)
  {
    assert !IsPathChar("my file.txt"[2]);
  }
}
