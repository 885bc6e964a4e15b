/** The command line of `upload-blobs.js`: the loop over the arguments that picks the
    JSON file, `--url=` and `--token=`, the exit when no file is named, and the rewriting
    of a prompted site URL into the URL of the `uploadBlobs` function. */
module UploadCli {
  import opened Common
  import Text

  /** What the argument loop sets; `None` where the script keeps `null`. */
  datatype Options = Options(filePath: Option<string>, functionUrl: Option<string>,
                             authToken: Option<string>)

  const NoOptions := Options(None, None, None)

  predicate IsUrlArg(arg: string) {
    Text.StartsWith(arg, "--url=")
  }

  predicate IsTokenArg(arg: string) {
    !IsUrlArg(arg) && Text.StartsWith(arg, "--token=")
  }

  /** Anything not starting with `--` names the file. */
  predicate IsPositional(arg: string) {
    !Text.StartsWith(arg, "--")
  }

  /** One turn of the loop: `--url=X` and `--token=X` keep the text after their prefix,
      a positional argument replaces the file path, any other `--` flag is ignored. */
  function ReadArg(o: Options, arg: string): (o': Options)
    ensures IsUrlArg(arg) ==> o' == o.(functionUrl := Some(arg[6..]))
    ensures IsTokenArg(arg) ==> o' == o.(authToken := Some(arg[8..]))
    ensures IsPositional(arg) ==> o' == o.(filePath := Some(arg))
    ensures !IsUrlArg(arg) && !IsTokenArg(arg) && !IsPositional(arg) ==> o' == o
  {
    if Text.StartsWith(arg, "--url=") then o.(functionUrl := Some(arg[6..]))
    else if Text.StartsWith(arg, "--token=") then o.(authToken := Some(arg[8..]))
    else if !Text.StartsWith(arg, "--") then o.(filePath := Some(arg))
    else o
  }

  /** The loop over all arguments, from the first to the last. */
  function ReadArgs(args: seq<string>): (o: Options)
    ensures o.filePath.None? <==> forall k :: 0 <= k < |args| ==> !IsPositional(args[k])
    ensures o.functionUrl.None? <==> forall k :: 0 <= k < |args| ==> !IsUrlArg(args[k])
    ensures o.authToken.None? <==> forall k :: 0 <= k < |args| ==> !IsTokenArg(args[k])
    decreases |args|
  {
    if args == [] then NoOptions else ReadArg(ReadArgs(args[..|args| - 1]), args[|args| - 1])
  }

  /** The index of the last argument with property `p`. */
  function LastWhere(args: seq<string>, p: string -> bool): (r: Option<nat>)
    ensures r.None? <==> forall k :: 0 <= k < |args| ==> !p(args[k])
    ensures r.Some? ==> r.value < |args| && p(args[r.value])
    ensures r.Some? ==> forall k :: r.value < k < |args| ==> !p(args[k])
    decreases |args|
  {
    if args == [] then None
    else if p(args[|args| - 1]) then Some(|args| - 1)
    else LastWhere(args[..|args| - 1], p)
  }

  /** The file is the LAST positional argument, `None` when there is none. */
  lemma {:induction false} LastPositionalWins(args: seq<string>)
    ensures ReadArgs(args).filePath ==
            match LastWhere(args, IsPositional) case None => None case Some(k) => Some(args[k])
    decreases |args|
  {
    if args != [] {
      var n := |args| - 1;
      LastPositionalWins(args[..n]);
      assert ReadArgs(args) == ReadArg(ReadArgs(args[..n]), args[n]);
      if !IsPositional(args[n]) {
        assert LastWhere(args, IsPositional) == LastWhere(args[..n], IsPositional);
        assert forall k :: 0 <= k < n ==> args[..n][k] == args[k];
      }
    }
  }

  /** The URL is the text after the LAST `--url=`. */
  lemma {:induction false} LastUrlWins(args: seq<string>)
    ensures ReadArgs(args).functionUrl ==
            match LastWhere(args, IsUrlArg) case None => None case Some(k) => Some(args[k][6..])
    decreases |args|
  {
    if args != [] {
      var n := |args| - 1;
      LastUrlWins(args[..n]);
      assert ReadArgs(args) == ReadArg(ReadArgs(args[..n]), args[n]);
      if !IsUrlArg(args[n]) {
        assert LastWhere(args, IsUrlArg) == LastWhere(args[..n], IsUrlArg);
        assert forall k :: 0 <= k < n ==> args[..n][k] == args[k];
      }
    }
  }

  /** The token is the text after the LAST `--token=`. */
  lemma {:induction false} LastTokenWins(args: seq<string>)
    ensures ReadArgs(args).authToken ==
            match LastWhere(args, IsTokenArg) case None => None case Some(k) => Some(args[k][8..])
    decreases |args|
  {
    if args != [] {
      var n := |args| - 1;
      LastTokenWins(args[..n]);
      assert ReadArgs(args) == ReadArg(ReadArgs(args[..n]), args[n]);
      if !IsTokenArg(args[n]) {
        assert LastWhere(args, IsTokenArg) == LastWhere(args[..n], IsTokenArg);
        assert forall k :: 0 <= k < n ==> args[..n][k] == args[k];
      }
    }
  }

  /** A flag the loop does not know changes nothing. */
  lemma UnknownFlagIgnored(args: seq<string>, flag: string)
    requires Text.StartsWith(flag, "--") && !IsUrlArg(flag) && !IsTokenArg(flag)
    ensures ReadArgs(args + [flag]) == ReadArgs(args)
  {
    assert (args + [flag])[..|args|] == args;
  }

  /** The loop itself. */
  method ParseArguments(args: seq<string>) returns (o: Options)
    ensures o == ReadArgs(args)
  {
    var filePath: Option<string> := None;
    var functionUrl: Option<string> := None;
    var authToken: Option<string> := None;
    var i := 0;
    while i < |args|
      invariant 0 <= i <= |args|
      invariant Options(filePath, functionUrl, authToken) == ReadArgs(args[..i])
    {
      var arg := args[i];
      assert args[..i + 1][..i] == args[..i];
      if Text.StartsWith(arg, "--url=") {
        functionUrl := Some(arg[6..]);
      } else if Text.StartsWith(arg, "--token=") {
        authToken := Some(arg[8..]);
      } else if !Text.StartsWith(arg, "--") {
        filePath := Some(arg);
      }
      i := i + 1;
    }
    assert args[..|args|] == args;
    o := Options(filePath, functionUrl, authToken);
  }

  /** How the script goes on after the loop: exit code 1 without a file path. */
  datatype Startup = ExitWith(code: int) | Proceed(options: Options)

  method Start(args: seq<string>) returns (s: Startup)
    ensures !Truthy(ReadArgs(args).filePath) <==> s == ExitWith(1)
    ensures s.Proceed? ==> s.options == ReadArgs(args)
  {
    var o := ParseArguments(args);
    if !Truthy(o.filePath) {
      return ExitWith(1);
    }
    s := Proceed(o);
  }

  /** With no positional argument the script exits with code 1. */
  lemma NoFileExits(args: seq<string>)
    requires forall k :: 0 <= k < |args| ==> !IsPositional(args[k])
    ensures !Truthy(ReadArgs(args).filePath)
  {
    LastPositionalWins(args);
  }

  /* ---------- The function URL ---------- */

  const Suffix := "/.netlify/functions/uploadBlobs"

  /** The prompted URL, already trimmed, turned into the function URL: kept when it ends
      with the suffix, otherwise stripped of one trailing `/` and given the suffix. */
  function NormalizeUrl(u: string): (url: string)
    ensures Text.EndsWith(url, Suffix)
    ensures Text.EndsWith(u, Suffix) ==> url == u
    ensures !Text.EndsWith(u, Suffix) ==>
              url[..|url| - |Suffix|] == (if Text.EndsWith(u, "/") then u[..|u| - 1] else u)
  {
    if Text.EndsWith(u, Suffix) then u
    else
      var base := if Text.EndsWith(u, "/") then u[..|u| - 1] else u;
      assert (base + Suffix)[|base|..] == Suffix;
      base + Suffix
  }

  /** Normalising twice is normalising once. */
  lemma NormalizeIdempotent(u: string)
    ensures NormalizeUrl(NormalizeUrl(u)) == NormalizeUrl(u)
  {
  }

  /** The URL `main` uploads to: a truthy `--url=` value as given, never normalised;
      otherwise the trimmed answer to the prompt, normalised. */
  method ResolveFunctionUrl(given: Option<string>, answer: string) returns (url: string)
    ensures Truthy(given) ==> url == given.value
    ensures !Truthy(given) ==> url == NormalizeUrl(Text.Trim(answer))
    ensures !Truthy(given) ==> Text.EndsWith(url, Suffix)
  {
    if Truthy(given) {
      return given.value;
    }
    url := Text.Trim(answer);
    if !Text.EndsWith(url, Suffix) {
      if Text.EndsWith(url, "/") {
        url := url[..|url| - 1];
      }
      url := url + Suffix;
    }
  }

  /** The token: a truthy `--token=` value, else the trimmed answer to the prompt. */
  method ResolveAuthToken(given: Option<string>, answer: string) returns (token: string)
    ensures Truthy(given) ==> token == given.value
    ensures !Truthy(given) ==> token == Text.Trim(answer)
  {
    if Truthy(given) {
      return given.value;
    }
    token := Text.Trim(answer);
  }
}
