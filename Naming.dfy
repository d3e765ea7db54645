/**
 * The submission naming convention of `CopyFileAndGetLogPath`: the name
 * the source file is copied under in the judge's inbox, which carries the
 * random disambiguator, the user and the task, and the path where the
 * judge is expected to leave the result log.
 */
module Naming {
  import opened Text
  import opened Paths

  /** A value of `new Random().Next()`: at least 0 and below `Int32.MaxValue`. */
  type RandomValue = n: int | 0 <= n < 0x7FFF_FFFF

  const LogsDirectory: string := "Logs"
  const LogExtension: string := ".log"

  /**
   * `<rnd>[<user>][<TASK>]<ext>`: the decimal random value, the user name in
   * brackets, the upper-cased file name without its extension in brackets,
   * then the extension with its dot (or nothing).
   */
  function DestinationName(rnd: RandomValue, userName: string, filePath: string): string
  {
    DecimalString(rnd) + "[" + userName + "][" + Upper(Stem(filePath)) + "]" + Extension(filePath)
  }

  /** `Logs\<destination name>.log`, relative to the inbox. */
  function LogFileName(destName: string): string
  {
    LogsDirectory + [DirectorySeparator] + destName + LogExtension
  }

  /** Where the file is copied and where its result is expected. */
  datatype Target = Target(destination: string, logPath: string)

  /**
   * The two paths `CopyFileAndGetLogPath` builds inside the inbox `osd`,
   * before and independently of the copy itself.
   */
  function SubmissionTarget(rnd: RandomValue, filePath: string, osd: string, userName: string): Target
  {
    var name := DestinationName(rnd, userName, filePath);
    Target(Combine(osd, name), Combine(osd, LogFileName(name)))
  }

  /** The fields a reader of a destination name recovers from it. */
  datatype NameParts = NameParts(rnd: nat, userName: string, task: string, extension: string)

  /**
   * Reads a destination name back: a run of digits, `[`, the user up to the
   * first `]`, `[`, the task up to the next `]`, and the rest as extension.
   */
  function ParseDestinationName(name: string): (r: Option<NameParts>)
    ensures r.Some? ==> ']' !in r.value.userName && ']' !in r.value.task
  {
    var d := DigitRun(name);
    if d == 0 || d == |name| || name[d] != '[' then None
    else
      match ParseUserAndRest(name[d + 1..])
      case None => None
      case Some(fields) => Some(NameParts(DecimalValue(name[..d]), fields.0, fields.1, fields.2))
  }

  /** Reads `<user>][<task>]<ext>`, the user ending at its first `]`. */
  function ParseUserAndRest(s: string): (r: Option<(string, string, string)>)
    ensures r.Some? ==> ']' !in r.value.0 && ']' !in r.value.1
  {
    match IndexOf(s, ']')
    case None => None
    case Some(u) =>
      match ParseTaskAndExtension(s[u + 1..])
      case None => None
      case Some(te) => Some((s[..u], te.0, te.1))
  }

  /** Reads `[<task>]<ext>`, the task ending at its first `]`. */
  function ParseTaskAndExtension(s: string): (r: Option<(string, string)>)
    ensures r.Some? ==> ']' !in r.value.0
  {
    if s == [] || s[0] != '[' then None
    else
      match IndexOf(s[1..], ']')
      case None => None
      case Some(t) => Some((s[1..][..t], s[1..][t + 1..]))
  }

  /**
   * The destination name carries its metadata recoverably: as long as the
   * user name and the file stem hold no `]`, reading the name back gives the
   * random value, the user, the upper-cased stem and the extension.
   */
  lemma DestinationNameRoundTrip(rnd: RandomValue, userName: string, filePath: string)
    requires ']' !in userName && ']' !in Stem(filePath)
    ensures ParseDestinationName(DestinationName(rnd, userName, filePath)) ==
      Some(NameParts(rnd, userName, Upper(Stem(filePath)), Extension(filePath)))
  {
    var digits, task, ext := DecimalString(rnd), Upper(Stem(filePath)), Extension(filePath);
    UpperKeepsNonLetter(Stem(filePath), ']');
    var afterRnd := userName + "][" + task + "]" + ext;
    var name := DestinationName(rnd, userName, filePath);
    LayoutAfterDigits(digits, userName, task, ext);
    ParseUserLayout(userName, task, ext);
    ParseDigitsLayout(digits, afterRnd, (userName, task, ext));
    DecimalRoundTrip(rnd);
    assert ParseDestinationName(name) == Some(NameParts(DecimalValue(digits), userName, task, ext));
  }

  /** A digit run and `[` in front of a readable rest. */
  lemma ParseDigitsLayout(digits: string, afterRnd: string, f: (string, string, string))
    requires digits != [] && AllDigits(digits)
    requires ParseUserAndRest(afterRnd) == Some(f)
    ensures ParseDestinationName(digits + "[" + afterRnd) == Some(NameParts(DecimalValue(digits), f.0, f.1, f.2))
  {
    var name := digits + "[" + afterRnd;
    assert name == digits + ("[" + afterRnd);
    DigitRunOfDigits(digits, "[" + afterRnd);
    var d := DigitRun(name);
    assert d == |digits| && name[d] == '[';
    assert name[..d] == digits;
    assert name[d + 1..] == afterRnd;
  }

  lemma ParseUserLayout(userName: string, task: string, ext: string)
    requires ']' !in userName && ']' !in task
    ensures ParseUserAndRest(userName + "][" + task + "]" + ext) == Some((userName, task, ext))
  {
    var afterUser := "[" + task + "]" + ext;
    var s := userName + "][" + task + "]" + ext;
    assert s == userName + [']'] + afterUser;
    IndexOfAfter(userName, ']', afterUser);
    assert s[..|userName|] == userName;
    assert s[|userName| + 1..] == afterUser;
    ParseTaskLayout(task, ext);
  }

  lemma ParseTaskLayout(task: string, ext: string)
    requires ']' !in task
    ensures ParseTaskAndExtension("[" + task + "]" + ext) == Some((task, ext))
  {
    var s := "[" + task + "]" + ext;
    IndexOfAfter(task, ']', ext);
    assert s[1..] == task + "]" + ext;
    assert (task + "]" + ext)[..|task|] == task;
    assert (task + "]" + ext)[|task| + 1..] == ext;
  }

  /**
   * The predicted result path is the destination name plus `.log` inside the
   * inbox's `Logs` directory, always ends in `.log`, and, for a user name
   * without separators, its file name is exactly the destination name plus
   * `.log`. The copy goes to the destination name inside the inbox.
   */
  lemma SubmissionTargetPaths(rnd: RandomValue, filePath: string, osd: string, userName: string)
    ensures var t := SubmissionTarget(rnd, filePath, osd, userName);
      var name := DestinationName(rnd, userName, filePath);
      && t.destination == Combine(osd, name)
      && t.logPath == Combine(Combine(osd, LogsDirectory), name + LogExtension)
      && |t.logPath| >= 4 && t.logPath[|t.logPath| - 4..] == LogExtension
      && (NoSeparator(userName) ==> FileName(t.logPath) == name + LogExtension)
  {
    var name := DestinationName(rnd, userName, filePath);
    assert SubmissionTarget(rnd, filePath, osd, userName) == Target(Combine(osd, name), Combine(osd, LogFileName(name)));
    DestinationNameStartsWithDigit(rnd, userName, filePath);
    LogPathLayout(osd, name);
    if NoSeparator(userName) {
      DestinationNameHasNoSeparator(rnd, userName, filePath);
    }
  }

  /** The generated name starts with the first digit of the random value. */
  lemma DestinationNameStartsWithDigit(rnd: RandomValue, userName: string, filePath: string)
    ensures var name := DestinationName(rnd, userName, filePath);
      name != [] && IsDigit(name[0])
  {
    LayoutStartsWithDigits(DecimalString(rnd), userName, Upper(Stem(filePath)), Extension(filePath));
  }

  lemma LayoutStartsWithDigits(digits: string, userName: string, task: string, ext: string)
    requires digits != []
    ensures (digits + "[" + userName + "][" + task + "]" + ext)[0] == digits[0]
  {
    var a := digits + "[" + userName;
    assert (digits + "[")[0] == digits[0];
    assert a[0] == digits[0];
    assert (a + "][" + task)[0] == digits[0];
  }

  /** The generated name holds a separator only if the user name does. */
  lemma DestinationNameHasNoSeparator(rnd: RandomValue, userName: string, filePath: string)
    requires NoSeparator(userName)
    ensures NoSeparator(DestinationName(rnd, userName, filePath))
  {
    var digits, task, ext := DecimalString(rnd), Upper(Stem(filePath)), Extension(filePath);
    StemAndExtensionHaveNoSeparator(filePath);
    assert NoSeparator(digits);
    UpperKeepsNonLetter(Stem(filePath), '\\');
    UpperKeepsNonLetter(Stem(filePath), '/');
    assert NoSeparator(task);
    LayoutHasNoSeparator(digits, userName, task, ext);
  }

  lemma LayoutHasNoSeparator(digits: string, userName: string, task: string, ext: string)
    requires NoSeparator(digits) && NoSeparator(userName) && NoSeparator(task) && NoSeparator(ext)
    ensures NoSeparator(digits + "[" + userName + "][" + task + "]" + ext)
  {
    NoSeparatorAppend(digits, "[");
    NoSeparatorAppend(digits + "[", userName);
    NoSeparatorAppend(digits + "[" + userName, "][");
    NoSeparatorAppend(digits + "[" + userName + "][", task);
    NoSeparatorAppend(digits + "[" + userName + "][" + task, "]");
    NoSeparatorAppend(digits + "[" + userName + "][" + task + "]", ext);
  }

  lemma LayoutAfterDigits(digits: string, userName: string, task: string, ext: string)
    ensures digits + "[" + userName + "][" + task + "]" + ext == digits + "[" + (userName + "][" + task + "]" + ext)
  {
  }

  /** `LogFileName` placed in an inbox, for any name that starts with a digit. */
  lemma LogPathLayout(osd: string, name: string)
    requires name != [] && IsDigit(name[0])
    ensures var p := Combine(osd, LogFileName(name));
      && p == Combine(Combine(osd, LogsDirectory), name + LogExtension)
      && |p| >= 4 && p[|p| - 4..] == LogExtension
      && (NoSeparator(name) ==> FileName(p) == name + LogExtension)
  {
    LogPathJoin(osd, name);
    LogPathEnd(Combine(osd, LogsDirectory), name);
  }

  /** A log path `<dir>\<name>.log` ends in `.log`, and its file name is `<name>.log`. */
  lemma LogPathEnd(logs: string, name: string)
    ensures var p := logs + [DirectorySeparator] + (name + LogExtension);
      && |p| >= 4 && p[|p| - 4..] == LogExtension
      && (NoSeparator(name) ==> FileName(p) == name + LogExtension)
  {
    var leaf := name + LogExtension;
    var p := logs + [DirectorySeparator] + leaf;
    assert p[|p| - 4..] == leaf[|leaf| - 4..];
    if NoSeparator(name) {
      NoSeparatorAppend(name, LogExtension);
      FileNameAfterSeparator(logs + [DirectorySeparator], leaf);
    }
  }

  /** Both ways of reaching the log inside the inbox's `Logs` directory give `<inbox>\Logs\<name>.log`. */
  lemma LogPathJoin(osd: string, name: string)
    requires name != [] && IsDigit(name[0])
    ensures var logs, leaf := Combine(osd, LogsDirectory), name + LogExtension;
      && logs != [] && !IsSeparator(logs[|logs| - 1])
      && Combine(osd, LogFileName(name)) == logs + [DirectorySeparator] + leaf
      && Combine(logs, leaf) == logs + [DirectorySeparator] + leaf
  {
    var leaf := name + LogExtension;
    assert leaf[0] == name[0];
    var rest := LogFileName(name);
    assert rest == LogsDirectory + ([DirectorySeparator] + leaf);
    assert !IsRooted(rest) && !IsSeparator(rest[0]);
    assert !IsRooted(leaf) && !IsSeparator(leaf[0]);
    if osd == [] {
      assert Combine(osd, rest) == rest;
    } else if IsSeparator(osd[|osd| - 1]) {
      assert Combine(osd, rest) == osd + rest;
      assert osd + rest == (osd + LogsDirectory) + [DirectorySeparator] + leaf;
    } else {
      assert Combine(osd, rest) == osd + [DirectorySeparator] + rest;
      assert osd + [DirectorySeparator] + rest ==
        (osd + [DirectorySeparator] + LogsDirectory) + [DirectorySeparator] + leaf;
    }
  }
}
