/** The two pure pieces of the projeto1.c shell loop: the prompt's
    rewriting of the current directory under `/home/<user>` to `~`, and the
    recognition and splitting of a command line into at most 32 arguments. */
module Shell {
  import opened Tokens

  /** `MAX_PATH`: the size of the `path` and `normalizedPath` buffers. */
  const MaxPath: nat := 512
  /** `MAX_ARGS`: the number of `argList` slots. */
  const MaxArgs: nat := 32

  // ---------------------------------------------------------------------
  // The prompt path

  /** `strncat(buf, piece, MAX_PATH - strlen(buf) - 1)`: appends as much of
      `piece` as fits with room left for the terminator. */
  function Cat(buf: string, piece: string): (r: string)
    requires |buf| < MaxPath
    ensures |r| < MaxPath
    ensures |buf| + |piece| < MaxPath ==> r == buf + piece
  {
    var room := MaxPath - |buf| - 1;
    buf + (if |piece| <= room then piece else piece[..room])
  }

  /** The loop of projeto1.c that appends "/" and then the component for
      each remaining component. */
  function CatAll(buf: string, ts: seq<string>): (r: string)
    requires |buf| < MaxPath
    ensures |r| < MaxPath
    decreases |ts|
  {
    if |ts| == 0 then buf else CatAll(Cat(Cat(buf, "/"), ts[0]), ts[1..])
  }

  /** The cwd lies under the user's home: its first two components are
      exactly "home" and the user name. */
  predicate AtHome(ts: seq<string>, user: string) {
    |ts| >= 2 && ts[0] == "home" && ts[1] == user
  }

  /** The prompt path: under `/home/<user>` the cwd is shown as "~" and one
      "/c" per remaining component; anywhere else it is shown as it is.
      `getcwd` fills a `MAX_PATH` buffer, so the cwd is shorter than that. */
  function Normalize(cwd: string, user: string): (r: string)
    requires |cwd| < MaxPath
    ensures |r| < MaxPath
    ensures AtHome(Tokenize(cwd, '/'), user) ==> r == "~" + Join(Tokenize(cwd, '/')[2..], '/')
    ensures !AtHome(Tokenize(cwd, '/'), user) ==> r == cwd
  {
    var ts := Tokenize(cwd, '/');
    if AtHome(ts, user) then
      HomeFits(cwd, ts);
      CatAllFits("~", ts[2..]);
      CatAll("~", ts[2..])
    else cwd
  }

  /** When everything fits, the bounded appends write exactly the
      separated components. */
  lemma {:induction false} CatAllFits(buf: string, ts: seq<string>)
    requires |buf| + |Join(ts, '/')| < MaxPath
    ensures CatAll(buf, ts) == buf + Join(ts, '/')
    decreases |ts|
  {
    if |ts| > 0 {
      var b1 := Cat(Cat(buf, "/"), ts[0]);
      assert Join(ts, '/') == "/" + ts[0] + Join(ts[1..], '/');
      assert b1 == buf + "/" + ts[0];
      CatAllFits(b1, ts[1..]);
    }
  }

  /** Writing the components of a text back, each behind a separator, takes
      at most one character more than the text; none more when the text
      starts with a separator. */
  lemma {:induction false} JoinTokenizeLength(s: string, sep: char)
    ensures |Join(Tokenize(s, sep), sep)| <= |s| + (if |s| > 0 && s[0] == sep then 0 else 1)
    decreases |s|
  {
    if |s| > 0 {
      if s[0] == sep {
        JoinTokenizeLength(s[1..], sep);
      } else {
        var k := TokenEnd(s, sep);
        var ts := Tokenize(s, sep);
        assert ts == [s[..k]] + Tokenize(s[k..], sep);
        assert ts[1..] == Tokenize(s[k..], sep);
        JoinTokenizeLength(s[k..], sep);
      }
    }
  }

  /** The home prefix "/home/<user>" takes at least seven characters, so the
      "~" form of a path under it is shorter than the path. */
  lemma HomeFits(cwd: string, ts: seq<string>)
    requires ts == Tokenize(cwd, '/')
    requires |ts| >= 2 && ts[0] == "home"
    ensures 1 + |Join(ts[2..], '/')| < |cwd|
  {
    JoinTokenizeLength(cwd, '/');
    assert |ts[1]| > 0;
    JoinLength(ts, '/');
    JoinLength(ts[1..], '/');
    assert ts[1..][1..] == ts[2..];
  }

  lemma JoinLength(ts: seq<string>, sep: char)
    requires |ts| > 0
    ensures |Join(ts, sep)| == 1 + |ts[0]| + |Join(ts[1..], sep)|
  {
  }

  /** Reading the shown path back: behind the "~" it splits into exactly
      the components of the cwd after "home" and the user. */
  lemma NormalizeRoundTrip(cwd: string, user: string)
    requires |cwd| < MaxPath
    requires AtHome(Tokenize(cwd, '/'), user)
    ensures Normalize(cwd, user)[0] == '~'
    ensures Tokenize(Normalize(cwd, user)[1..], '/') == Tokenize(cwd, '/')[2..]
  {
    var rest := Tokenize(cwd, '/')[2..];
    assert ("~" + Join(rest, '/'))[1..] == Join(rest, '/');
    TokenizeJoin(rest, '/');
  }

  /** A path written as "/home/<user>/c1/.../cn" is shown as "~/c1/.../cn". */
  lemma NormalizeUnderHome(user: string, rest: seq<string>)
    requires IsToken(user, '/')
    requires forall i :: 0 <= i < |rest| ==> IsToken(rest[i], '/')
    requires |Join(["home", user] + rest, '/')| < MaxPath
    ensures Normalize(Join(["home", user] + rest, '/'), user) == "~" + Join(rest, '/')
  {
    var ts := ["home", user] + rest;
    TokenizeJoin(ts, '/');
    assert ts[2..] == rest;
  }

  /** Components are compared whole: under "/home/<other>" for another
      name, even one that extends the user name ("alice2" for "alice"),
      the path is shown as it is. */
  lemma NormalizeOtherHome(user: string, other: string, rest: seq<string>)
    requires IsToken(other, '/') && other != user
    requires forall i :: 0 <= i < |rest| ==> IsToken(rest[i], '/')
    requires |Join(["home", other] + rest, '/')| < MaxPath
    ensures Normalize(Join(["home", other] + rest, '/'), user) == Join(["home", other] + rest, '/')
  {
    var ts := ["home", other] + rest;
    TokenizeJoin(ts, '/');
  }

  // ---------------------------------------------------------------------
  // The command line

  /** What the loop does with a line: skip it, leave the shell, or run the
      argument list. */
  datatype Action = Skip | Exit | Run(args: seq<string>)

  /** `commandLine[strcspn(commandLine, "\n")] = 0`: the line up to its
      first newline. */
  function Chomp(raw: string): (r: string)
    ensures '\n' !in r
    ensures |r| <= |raw| && r == raw[..|r|]
    ensures |r| < |raw| ==> raw[|r|] == '\n'
  {
    if |raw| == 0 || raw[0] == '\n' then "" else [raw[0]] + Chomp(raw[1..])
  }

  /** The tokenizing loop: the space-separated words of the line, empty
      ones skipped, the first `MAX_ARGS` of them kept. */
  function SplitArgs(line: string): (r: seq<string>)
    ensures |r| <= MaxArgs && |r| <= |Tokenize(line, ' ')|
    ensures forall i :: 0 <= i < |r| ==> IsToken(r[i], ' ')
    ensures r == Tokenize(line, ' ')[..|r|]
    ensures |r| < MaxArgs ==> r == Tokenize(line, ' ')
  {
    var ts := Tokenize(line, ' ');
    if |ts| <= MaxArgs then ts else ts[..MaxArgs]
  }

  /** The checks before tokenizing: the empty line is skipped and exactly
      "exit" leaves; anything else, spaces included, is split. */
  function Classify(raw: string): (r: Action)
    ensures r == Skip <==> Chomp(raw) == ""
    ensures r == Exit <==> Chomp(raw) == "exit"
    ensures r.Run? ==> r.args == SplitArgs(Chomp(raw))
  {
    var line := Chomp(raw);
    if line == "" then Skip
    else if line == "exit" then Exit
    else Run(SplitArgs(line))
  }

  /** Up to 32 words written with single spaces come back unchanged. */
  lemma SplitArgsJoin(ts: seq<string>)
    requires |ts| <= MaxArgs
    requires forall i :: 0 <= i < |ts| ==> IsToken(ts[i], ' ')
    ensures SplitArgs(Join(ts, ' ')) == ts
  {
    TokenizeJoin(ts, ' ');
  }

  /** A line read with its newline is the text before the newline. */
  lemma {:induction false} ChompLine(s: string)
    requires '\n' !in s
    ensures Chomp(s + "\n") == s
  {
    if |s| > 0 {
      assert (s + "\n")[1..] == s[1..] + "\n";
      ChompLine(s[1..]);
      assert s == [s[0]] + s[1..];
    }
  }

  /** A line leaves the shell exactly when it reads "exit", and is skipped
      exactly when it is empty. */
  lemma ClassifyLine(s: string)
    requires '\n' !in s
    ensures Classify(s + "\n") == Exit <==> s == "exit"
    ensures Classify(s + "\n") == Skip <==> s == ""
  {
    ChompLine(s);
  }

  /** Only the exact line "exit" leaves: a word behind a space, "exit"
      included, is run as a one-word command. */
  lemma ClassifyPadded(t: string)
    requires IsToken(t, ' ') && '\n' !in t
    ensures Classify(" " + t + "\n") == Run([t])
  {
    ChompLine(" " + t);
    TokenizeJoin([t], ' ');
    assert Join([t], ' ') == " " + t;
  }

  /** A line of spaces is not skipped but gives no argument at all. */
  lemma ClassifyBlank(n: nat)
    requires n > 0
    ensures Classify(seq(n, i => ' ') + "\n") == Run([])
  {
    var sp := seq(n, i => ' ');
    ChompLine(sp);
    Blanks(n);
    assert sp != "";
  }

  lemma {:induction false} Blanks(n: nat)
    ensures Tokenize(seq(n, i => ' '), ' ') == []
  {
    if n > 0 {
      var sp := seq(n, i => ' ');
      assert sp == [' '] + seq(n - 1, i => ' ');
      TokenizeSkipsSeparators(seq(n - 1, i => ' '), ' ');
      Blanks(n - 1);
    }
  }
}
