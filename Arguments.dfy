/**
 * Command-line parsing in `Main`: the arguments are read as
 * `(flag, value)` pairs, flags compared after lower-casing, and the last
 * occurrence of each known flag decides its field; unknown flags are
 * skipped. The inbox ("OSD") directory and the user name start from the
 * loaded settings.
 */
module Arguments {
  import opened Text

  const SrcFlag: string := "-src"
  const OsdFlag: string := "-osd"
  const UserFlag: string := "-user"
  const ResetFlag: string := "-reset"

  predicate IsKnownFlag(flag: string)
  {
    flag == SrcFlag || flag == OsdFlag || flag == UserFlag
  }

  /** The four locals the pair loop updates. */
  datatype Parsed = Parsed(filePath: string, osd: string, userName: string, hasFile: bool)

  /** The locals before the loop: no file, inbox and user from the settings. */
  function Initial(osdRuntime: string, usernameRuntime: string): Parsed
  {
    Parsed("", osdRuntime, usernameRuntime, false)
  }

  /**
   * One pass of the loop body: the `switch` on the lower-cased flag.
   * `fullPath` stands for `Path.GetFullPath`.
   */
  function Step(st: Parsed, prefix: string, content: string, fullPath: string -> string): Parsed
  {
    var flag := Lower(prefix);
    if flag == SrcFlag then st.(filePath := fullPath(content), hasFile := true)
    else if flag == OsdFlag then st.(osd := content)
    else if flag == UserFlag then st.(userName := content)
    else st
  }

  /**
   * The pairs the loop visits: `(args[i], args[i + 1])` for every even `i`,
   * in order. An even count is needed for every value to exist.
   */
  function Pairs(args: seq<string>): (ps: seq<(string, string)>)
    requires |args| % 2 == 0
    ensures |ps| * 2 == |args|
    ensures forall j :: 0 <= j < |ps| ==> ps[j] == (args[2 * j], args[2 * j + 1])
  {
    if args == [] then []
    else Pairs(args[..|args| - 2]) + [(args[|args| - 2], args[|args| - 1])]
  }

  /** The locals after the loop body has run on each of `ps`, in order. */
  function Fold(st: Parsed, ps: seq<(string, string)>, fullPath: string -> string): Parsed
  {
    if ps == [] then st
    else
      var last := ps[|ps| - 1];
      Step(Fold(st, ps[..|ps| - 1], fullPath), last.0, last.1, fullPath)
  }

  /**
   * The value of the last pair whose flag lowers to `flag`: it exists
   * exactly when some pair has that flag, and no later pair has it.
   */
  function LastValue(ps: seq<(string, string)>, flag: string): (r: Option<string>)
    ensures r.None? <==> forall j :: 0 <= j < |ps| ==> Lower(ps[j].0) != flag
    ensures r.Some? ==> exists j :: 0 <= j < |ps| && Lower(ps[j].0) == flag && ps[j].1 == r.value &&
                                    forall k :: j < k < |ps| ==> Lower(ps[k].0) != flag
  {
    if ps == [] then None
    else if Lower(ps[|ps| - 1].0) == flag then Some(ps[|ps| - 1].1)
    else
      var r := LastValue(ps[..|ps| - 1], flag);
      assert forall j :: 0 <= j < |ps| - 1 ==> ps[..|ps| - 1][j] == ps[j];
      r
  }

  /**
   * What the parsed locals are, described without the loop: each field
   * holds the value of its flag's last pair, or its starting value when the
   * flag never occurs; a file is present exactly when `-src` occurs.
   */
  function Summary(st: Parsed, ps: seq<(string, string)>, fullPath: string -> string): Parsed
  {
    var src := LastValue(ps, SrcFlag);
    Parsed(
      if src.Some? then fullPath(src.value) else st.filePath,
      ValueOr(LastValue(ps, OsdFlag), st.osd),
      ValueOr(LastValue(ps, UserFlag), st.userName),
      st.hasFile || src.Some?)
  }

  /** Running the loop body over the pairs gives the summary: the last occurrence wins. */
  lemma {:induction false} FoldIsSummary(st: Parsed, ps: seq<(string, string)>, fullPath: string -> string)
    ensures Fold(st, ps, fullPath) == Summary(st, ps, fullPath)
  {
    if ps != [] {
      FoldIsSummary(st, ps[..|ps| - 1], fullPath);
    }
  }

  /** Processing `ps` then `qs` is processing `ps + qs`. */
  lemma {:induction false} FoldAppend(st: Parsed, ps: seq<(string, string)>, qs: seq<(string, string)>,
                                     fullPath: string -> string)
    ensures Fold(st, ps + qs, fullPath) == Fold(Fold(st, ps, fullPath), qs, fullPath)
  {
    if qs == [] {
      assert ps + qs == ps;
    } else {
      FoldAppend(st, ps, qs[..|qs| - 1], fullPath);
      assert (ps + qs)[..|ps + qs| - 1] == ps + qs[..|qs| - 1];
    }
  }

  /**
   * A pair whose flag is none of `-src`, `-osd`, `-user` (in any case) has
   * no effect wherever it stands.
   */
  lemma UnknownFlagIgnored(st: Parsed, ps: seq<(string, string)>, prefix: string, content: string,
                           qs: seq<(string, string)>, fullPath: string -> string)
    requires !IsKnownFlag(Lower(prefix))
    ensures Fold(st, ps + [(prefix, content)] + qs, fullPath) == Fold(st, ps + qs, fullPath)
  {
    FoldAppend(st, ps + [(prefix, content)], qs, fullPath);
    assert (ps + [(prefix, content)])[..|ps|] == ps;
    FoldAppend(st, ps, qs, fullPath);
  }

  /**
   * Flags are matched without regard to case: a flag is accepted exactly
   * when it has the literal's length and each letter in either case.
   */
  lemma FlagMatchIgnoresCase(prefix: string, flag: string)
    requires flag == SrcFlag || flag == OsdFlag || flag == UserFlag
    ensures Lower(prefix) == flag <==>
      |prefix| == |flag| && forall i :: 0 <= i < |prefix| ==> prefix[i] == flag[i] || prefix[i] == UpperChar(flag[i])
  {
    LowerMatches(prefix, flag);
  }

  /** `-SRC`, `-Osd` and `-USER` are accepted; `-reset` is not a pair flag. */
  lemma MixedCaseFlags()
    ensures Lower("-SRC") == SrcFlag && Lower("-Osd") == OsdFlag && Lower("-USER") == UserFlag
    ensures !IsKnownFlag(Lower(ResetFlag))
  {
    assert Lower("-SRC") == ['-', 's', 'r', 'c'];
    assert Lower("-Osd") == ['-', 'o', 's', 'd'];
    assert Lower("-USER") == ['-', 'u', 's', 'e', 'r'];
    assert Lower(ResetFlag) == ResetFlag;
  }

  /**
   * The pair loop of `Main`. It reads `args[i]` and `args[i + 1]` for even
   * `i` only, so with an even count it never reads past the end; afterwards
   * each field holds the value of its flag's last pair, or its default.
   */
  method ParseArguments(args: seq<string>, osdRuntime: string, usernameRuntime: string,
                        fullPath: string -> string)
    returns (filePath: string, osd: string, userName: string, hasFile: bool)
    requires |args| % 2 == 0
    ensures Parsed(filePath, osd, userName, hasFile) ==
      Fold(Initial(osdRuntime, usernameRuntime), Pairs(args), fullPath)
    ensures hasFile <==> LastValue(Pairs(args), SrcFlag).Some?
    ensures hasFile ==> filePath == fullPath(LastValue(Pairs(args), SrcFlag).value)
    ensures osd == ValueOr(LastValue(Pairs(args), OsdFlag), osdRuntime)
    ensures userName == ValueOr(LastValue(Pairs(args), UserFlag), usernameRuntime)
  {
    filePath := "";
    osd := osdRuntime;
    userName := usernameRuntime;
    hasFile := false;

    ghost var ps := Pairs(args);
    var i := 0;
    ghost var k := 0;
    while i < |args|
      invariant 0 <= k <= |ps| && i == 2 * k
      invariant Parsed(filePath, osd, userName, hasFile) ==
        Fold(Initial(osdRuntime, usernameRuntime), ps[..k], fullPath)
    {
      var prefix := args[i];
      var content := args[i + 1];
      var flag := Lower(prefix);
      if flag == SrcFlag {
        filePath := fullPath(content);
        hasFile := true;
      } else if flag == OsdFlag {
        osd := content;
      } else if flag == UserFlag {
        userName := content;
      }
      FoldNextPair(Initial(osdRuntime, usernameRuntime), ps, k, fullPath);
      i := i + 2;
      k := k + 1;
    }
    assert ps[..k] == ps;
    ParsedFields(args, osdRuntime, usernameRuntime, fullPath);
  }

  /** The fields after the whole loop, each from its flag's last pair. */
  lemma ParsedFields(args: seq<string>, osdRuntime: string, usernameRuntime: string,
                     fullPath: string -> string)
    requires |args| % 2 == 0
    ensures var p := Fold(Initial(osdRuntime, usernameRuntime), Pairs(args), fullPath);
      && (p.hasFile <==> LastValue(Pairs(args), SrcFlag).Some?)
      && (p.hasFile ==> p.filePath == fullPath(LastValue(Pairs(args), SrcFlag).value))
      && p.osd == ValueOr(LastValue(Pairs(args), OsdFlag), osdRuntime)
      && p.userName == ValueOr(LastValue(Pairs(args), UserFlag), usernameRuntime)
  {
    FoldIsSummary(Initial(osdRuntime, usernameRuntime), Pairs(args), fullPath);
  }

  /** Extending the loop's prefix by one pair runs the body once more. */
  lemma FoldNextPair(st: Parsed, ps: seq<(string, string)>, k: nat, fullPath: string -> string)
    requires k < |ps|
    ensures Fold(st, ps[..k + 1], fullPath) == Step(Fold(st, ps[..k], fullPath), ps[k].0, ps[k].1, fullPath)
  {
    assert ps[..k + 1][..k] == ps[..k];
  }
}
