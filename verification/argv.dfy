/** Construction of the trigger command in `main` (src/main.rs): the TV's
    control address, the `curl` command line that starts the app, and its
    split into an argument vector on single spaces. */
module Argv {

  /** `format!("{tv_ip}:6095")`: the address is not validated. */
  function TvAddr(ip: string): string
  {
    ip + ":6095"
  }

  /** The command line that asks the TV to start package `pkg` (the one
      format string of the source, written here in pieces). */
  function CmdLine(ip: string, pkg: string): string
  {
    "curl -v http://" + TvAddr(ip) + "/controller?" + "action=startapp" + "&type=packagename" + "&packagename=" + pkg
  }

  /** The URL argument of the command line. */
  function Url(ip: string, pkg: string): string
  {
    "http://" + TvAddr(ip) + "/controller?" + "action=startapp" + "&type=packagename" + "&packagename=" + pkg
  }

  predicate NoSpace(w: string)
  {
    ' ' !in w
  }

  /** Pieces joined back with one space between neighbours. */
  function Join(parts: seq<string>): string
    decreases |parts|
  {
    if |parts| == 0 then ""
    else if |parts| == 1 then parts[0]
    else parts[0] + " " + Join(parts[1..])
  }

  /** Rust's `str::split(" ")`: the pieces between single spaces, empty
      pieces included; the empty string gives one empty piece. */
  function Split(s: string): (parts: seq<string>)
    ensures |parts| >= 1
    ensures forall i :: 0 <= i < |parts| ==> NoSpace(parts[i])
    ensures Join(parts) == s
    decreases |s|
  {
    if |s| == 0 then [""]
    else if s[0] == ' ' then
      var rest := Split(s[1..]);
      assert s == [' '] + s[1..];
      [""] + rest
    else
      var rest := Split(s[1..]);
      var parts := [[s[0]] + rest[0]] + rest[1..];
      JoinHead(rest);
      JoinHead(parts);
      assert parts[1..] == rest[1..];
      assert s == [s[0]] + s[1..];
      parts
  }

  /** Joining splits off the first piece. */
  lemma JoinHead(parts: seq<string>)
    requires |parts| >= 1
    ensures Join(parts) == parts[0] + (if |parts| == 1 then "" else " " + Join(parts[1..]))
  {
  }

  /** Splitting a join of space-free pieces gives the pieces back. */
  lemma {:induction false} SplitJoin(parts: seq<string>)
    requires |parts| >= 1
    requires forall i :: 0 <= i < |parts| ==> NoSpace(parts[i])
    ensures Split(Join(parts)) == parts
    decreases |parts|
  {
    if |parts| == 1 {
      SplitWord(parts[0]);
    } else {
      SplitJoin(parts[1..]);
      SplitWordThenSpace(parts[0], Join(parts[1..]));
    }
  }

  /** A space-free word splits to itself. */
  lemma {:induction false} SplitWord(w: string)
    requires NoSpace(w)
    ensures Split(w) == [w]
    decreases |w|
  {
    if |w| > 0 {
      SplitWord(w[1..]);
      assert w == [w[0]] + w[1..];
    }
  }

  /** A space-free word followed by a space is a piece of its own. */
  lemma {:induction false} SplitWordThenSpace(w: string, rest: string)
    requires NoSpace(w)
    ensures Split(w + " " + rest) == [w] + Split(rest)
    decreases |w|
  {
    var s := w + " " + rest;
    if |w| == 0 {
      assert s == [' '] + rest;
      assert s[1..] == rest;
    } else {
      SplitWordThenSpace(w[1..], rest);
      assert s[1..] == w[1..] + " " + rest;
      assert [s[0]] + w[1..] == w;
    }
  }

  /** A space-free word at the front of a string starts its first piece. */
  lemma {:induction false} SplitWordPrefix(w: string, rest: string)
    requires NoSpace(w)
    ensures w <= Split(w + rest)[0]
    decreases |w|
  {
    if |w| > 0 {
      SplitWordPrefix(w[1..], rest);
      assert (w + rest)[1..] == w[1..] + rest;
    }
  }

  /** The command line is `curl`, `-v` and the URL, joined by spaces. */
  lemma {:induction false} CmdLineSplit(ip: string, pkg: string)
    ensures Split(CmdLine(ip, pkg)) == ["curl", "-v"] + Split(Url(ip, pkg))
  {
    var url := Url(ip, pkg);
    assert CmdLine(ip, pkg) == "curl" + " " + ("-v" + " " + url);
    SplitWordThenSpace("curl", "-v" + " " + url);
    SplitWordThenSpace("-v", url);
  }

  /** The URL has no space of its own: the literal parts are space-free. */
  lemma UrlNoSpace(ip: string, pkg: string)
    requires NoSpace(ip) && NoSpace(pkg)
    ensures NoSpace(Url(ip, pkg))
  {
    assert NoSpace("/controller?") && NoSpace("action=startapp");
    assert NoSpace("&type=packagename") && NoSpace("&packagename=");
    assert NoSpace(":6095") && NoSpace("http://");
  }

  /** The URL names the TV's control address right after the scheme. */
  lemma UrlAddress(ip: string, pkg: string)
    ensures "http://" + TvAddr(ip) <= Url(ip, pkg)
  {
    var head := "http://" + TvAddr(ip);
    assert Url(ip, pkg) == head + ("/controller?" + "action=startapp" + "&type=packagename" + "&packagename=" + pkg);
  }

  /** Whatever the inputs, the first piece of the URL keeps its scheme. */
  lemma UrlScheme(ip: string, pkg: string)
    ensures "http://" <= Split(Url(ip, pkg))[0]
  {
    var tail := TvAddr(ip) + "/controller?" + "action=startapp" + "&type=packagename" + "&packagename=" + pkg;
    assert Url(ip, pkg) == "http://" + tail;
    SplitWordPrefix("http://", tail);
  }

  /** The argument vector of `main`: never empty, the program is `curl`,
      the first argument `-v` and the URL argument starts with `http://`
      whatever the address and package; with space-free inputs it is exactly
      the three words of the command line, the URL carrying `ip:6095`. */
  lemma CommandArgv(ip: string, pkg: string)
    ensures |Split(CmdLine(ip, pkg))| >= 3
    ensures Split(CmdLine(ip, pkg))[0] == "curl"
    ensures Split(CmdLine(ip, pkg))[1] == "-v"
    ensures "http://" <= Split(CmdLine(ip, pkg))[2]
    ensures Join(Split(CmdLine(ip, pkg))) == CmdLine(ip, pkg)
    ensures NoSpace(ip) && NoSpace(pkg) ==>
              Split(CmdLine(ip, pkg)) == ["curl", "-v", Url(ip, pkg)] &&
              "http://" + TvAddr(ip) <= Split(CmdLine(ip, pkg))[2]
  {
    CmdLineSplit(ip, pkg);
    UrlScheme(ip, pkg);
    if NoSpace(ip) && NoSpace(pkg) {
      UrlAddress(ip, pkg);
      UrlNoSpace(ip, pkg);
      SplitWord(Url(ip, pkg));
    }
  }
}
