/**
 * The build helpers: `prependExt` (also exported as `prepend`), which builds
 * the module resolver's list of file extensions, and `hasProcessFlag`, which
 * looks for a flag in the command line. The process's argument vector is an
 * explicit parameter here.
 */
module Helpers {

  // ---------------------------------------------------------------------------
  // prependExt
  // ---------------------------------------------------------------------------

  /**
   * The second argument of `prependExt` as JavaScript may pass it: missing
   * (or null, or any other falsy value), a single value that is not an
   * array, or an array of prefixes.
   */
  datatype PrefixArg = Absent | Single(prefix: string) | Several(prefixes: seq<string>)

  /**
   * `args = args || []; if (!Array.isArray(args)) { args = [args] }`.
   * The empty string is falsy, so `Single("")` becomes the empty list,
   * while an array is kept even when it is empty.
   */
  function PrefixList(arg: PrefixArg): (r: seq<string>)
    ensures r == [] <==> arg == Absent || arg == Single("") || arg == Several([])
    ensures arg.Single? && arg.prefix != "" ==> r == [arg.prefix]
    ensures arg.Several? ==> r == arg.prefixes
  {
    match arg
    case Absent => []
    case Single(p) => if p == "" then [] else [p]
    case Several(ps) => ps
  }

  /** `args.map(prefix => prefix + val)`. */
  function Prefixed(prefixes: seq<string>, val: string): (r: seq<string>)
    ensures |r| == |prefixes|
    ensures forall i :: 0 <= i < |prefixes| ==> r[i] == prefixes[i] + val
  {
    if prefixes == [] then [] else [prefixes[0] + val] + Prefixed(prefixes[1..], val)
  }

  /**
   * `extensions.reduce((memo, val) => memo.concat(val, args.map(...)), memo)`:
   * the left fold, one extension at a time. What was accumulated so far is
   * never changed, only extended.
   */
  function Reduce(memo: seq<string>, extensions: seq<string>, prefixes: seq<string>): (r: seq<string>)
    ensures |r| >= |memo| && r[..|memo|] == memo
    decreases |extensions|
  {
    if extensions == [] then memo
    else Reduce(memo + [extensions[0]] + Prefixed(prefixes, extensions[0]), extensions[1..], prefixes)
  }

  /** The resolver extension list: `""`, then each extension followed by its prefixed forms. */
  function PrependExt(extensions: seq<string>, arg: PrefixArg): (r: seq<string>)
    ensures |r| >= 1 && r[0] == ""
  {
    Reduce([""], extensions, PrefixList(arg))
  }

  /** Reference definition: the block one extension contributes. */
  function Block(val: string, prefixes: seq<string>): seq<string>
  {
    [val] + Prefixed(prefixes, val)
  }

  /** Reference definition: the blocks of all extensions, in the order of the extensions. */
  function Blocks(extensions: seq<string>, prefixes: seq<string>): seq<string>
  {
    if extensions == [] then [] else Block(extensions[0], prefixes) + Blocks(extensions[1..], prefixes)
  }

  /** The fold appends the blocks of the remaining extensions to what it has accumulated. */
  lemma {:induction false} ReduceIsBlocks(memo: seq<string>, extensions: seq<string>, prefixes: seq<string>)
    ensures Reduce(memo, extensions, prefixes) == memo + Blocks(extensions, prefixes)
    decreases |extensions|
  {
    if extensions != [] {
      var next := memo + Block(extensions[0], prefixes);
      assert memo + [extensions[0]] + Prefixed(prefixes, extensions[0]) == next;
      ReduceIsBlocks(next, extensions[1..], prefixes);
    }
  }

  lemma {:induction false} BlocksAppend(a: seq<string>, b: seq<string>, prefixes: seq<string>)
    ensures Blocks(a + b, prefixes) == Blocks(a, prefixes) + Blocks(b, prefixes)
    decreases |a|
  {
    if a == [] {
      assert a + b == b;
    } else {
      assert (a + b)[0] == a[0];
      assert (a + b)[1..] == a[1..] + b;
      BlocksAppend(a[1..], b, prefixes);
    }
  }

  /**
   * Entry `j * (1 + |prefixes|) + t` of the blocks is extension j itself when
   * t == 0 and prefix t - 1 followed by extension j otherwise.
   */
  lemma BlocksAt(extensions: seq<string>, prefixes: seq<string>, j: nat, t: nat)
    requires j < |extensions| && t <= |prefixes|
    ensures j * (1 + |prefixes|) + t < |Blocks(extensions, prefixes)|
    ensures Blocks(extensions, prefixes)[j * (1 + |prefixes|) + t] ==
            if t == 0 then extensions[j] else prefixes[t - 1] + extensions[j]
  {
    var before, rest := extensions[..j], extensions[j..];
    assert extensions == before + rest;
    BlocksAppend(before, rest, prefixes);
    BlocksLength(before, prefixes);
    BlocksLength(extensions, prefixes);
    var block := Block(extensions[j], prefixes);
    assert rest[0] == extensions[j];
    assert Blocks(rest, prefixes) == block + Blocks(rest[1..], prefixes);
    var at := |Blocks(before, prefixes)|;
    assert at == j * (1 + |prefixes|);
    assert Blocks(extensions, prefixes)[at + t] == block[t];
  }

  lemma MultiplyStep(j: nat, m: nat)
    requires j >= 1
    ensures j * m == (j - 1) * m + m
  {
  }

  lemma {:induction false} BlocksLength(extensions: seq<string>, prefixes: seq<string>)
    ensures |Blocks(extensions, prefixes)| == |extensions| * (1 + |prefixes|)
    decreases |extensions|
  {
    if extensions != [] {
      BlocksLength(extensions[1..], prefixes);
      MultiplyStep(|extensions|, 1 + |prefixes|);
    }
  }

  /** The result has exactly `1 + |extensions| * (1 + |prefixes|)` entries and starts with `""`. */
  lemma PrependExtLength(extensions: seq<string>, arg: PrefixArg)
    ensures |PrependExt(extensions, arg)| == 1 + |extensions| * (1 + |PrefixList(arg)|)
    ensures PrependExt(extensions, arg)[0] == ""
  {
    ReduceIsBlocks([""], extensions, PrefixList(arg));
    BlocksLength(extensions, PrefixList(arg));
  }

  /**
   * Extension j sits at `1 + j * (1 + k)`, followed immediately by
   * `prefixes[0] + extensions[j]`, ..., `prefixes[k - 1] + extensions[j]`.
   * Together with PrependExtLength this fixes every entry of the result.
   */
  lemma PrependExtAt(extensions: seq<string>, arg: PrefixArg, j: nat, t: nat)
    requires j < |extensions| && t <= |PrefixList(arg)|
    ensures 1 + j * (1 + |PrefixList(arg)|) + t < |PrependExt(extensions, arg)|
    ensures PrependExt(extensions, arg)[1 + j * (1 + |PrefixList(arg)|) + t] ==
            if t == 0 then extensions[j] else PrefixList(arg)[t - 1] + extensions[j]
  {
    var prefixes := PrefixList(arg);
    ReduceIsBlocks([""], extensions, prefixes);
    BlocksAt(extensions, prefixes, j, t);
  }

  /** No extensions: the result is `[""]`, whatever the prefixes. */
  lemma PrependExtNoExtensions(arg: PrefixArg)
    ensures PrependExt([], arg) == [""]
  {
  }

  lemma {:induction false} BlocksWithoutPrefixes(extensions: seq<string>)
    ensures Blocks(extensions, []) == extensions
    decreases |extensions|
  {
    if extensions != [] {
      BlocksWithoutPrefixes(extensions[1..]);
    }
  }

  /** A missing prefix argument gives `""` followed by the extensions unchanged. */
  lemma PrependExtAbsent(extensions: seq<string>)
    ensures PrependExt(extensions, Absent) == [""] + extensions
  {
    ReduceIsBlocks([""], extensions, []);
    BlocksWithoutPrefixes(extensions);
  }

  /** The empty string is falsy, so passing it as the prefix is the same as passing none. */
  lemma PrependExtEmptyPrefix(extensions: seq<string>)
    ensures PrependExt(extensions, Single("")) == PrependExt(extensions, Absent)
    ensures PrependExt(extensions, Single("")) == [""] + extensions
  {
    PrependExtAbsent(extensions);
  }

  /** A single non-array prefix behaves as the one-element list holding it. */
  lemma PrependExtSingle(extensions: seq<string>, p: string)
    requires p != ""
    ensures PrependExt(extensions, Single(p)) == PrependExt(extensions, Several([p]))
    ensures |PrependExt(extensions, Single(p))| == 1 + 2 * |extensions|
    ensures forall j :: 0 <= j < |extensions| ==>
              PrependExt(extensions, Single(p))[1 + 2 * j] == extensions[j] &&
              PrependExt(extensions, Single(p))[2 + 2 * j] == p + extensions[j]
  {
    PrependExtLength(extensions, Single(p));
    forall j | 0 <= j < |extensions|
      ensures PrependExt(extensions, Single(p))[1 + 2 * j] == extensions[j]
      ensures PrependExt(extensions, Single(p))[2 + 2 * j] == p + extensions[j]
    {
      PrependExtAt(extensions, Single(p), j, 0);
      PrependExtAt(extensions, Single(p), j, 1);
    }
  }

  /** Reference definition for one prefix: each extension followed by the prefixed extension. */
  function Interleave(extensions: seq<string>, p: string): seq<string>
  {
    if extensions == [] then [] else [extensions[0], p + extensions[0]] + Interleave(extensions[1..], p)
  }

  lemma {:induction false} BlocksOnePrefix(extensions: seq<string>, p: string)
    ensures Blocks(extensions, [p]) == Interleave(extensions, p)
    decreases |extensions|
  {
    if extensions != [] {
      assert Block(extensions[0], [p]) == [extensions[0], p + extensions[0]];
      BlocksOnePrefix(extensions[1..], p);
    }
  }

  /** With a single non-empty prefix the result is `""` then each extension and its prefixed form. */
  lemma PrependExtInterleaves(extensions: seq<string>, p: string)
    requires p != ""
    ensures PrependExt(extensions, Single(p)) == [""] + Interleave(extensions, p)
  {
    ReduceIsBlocks([""], extensions, [p]);
    BlocksOnePrefix(extensions, p);
  }

  /** Each of the six resolver extensions followed by its ".async" form. */
  lemma AsyncInterleaving()
    ensures Interleave([".ts", ".js", ".json", ".css", ".scss", ".html"], ".async") ==
            [".ts", ".async.ts", ".js", ".async.js", ".json", ".async.json",
             ".css", ".async.css", ".scss", ".async.scss", ".html", ".async.html"]
  {
    assert ".async" + ".ts" == ".async.ts";
    assert ".async" + ".js" == ".async.js";
    assert ".async" + ".json" == ".async.json";
    assert ".async" + ".css" == ".async.css";
    assert ".async" + ".scss" == ".async.scss";
    assert ".async" + ".html" == ".async.html";
  }

  /**
   * What the exported `prepend` returns for the arguments of the resolver
   * setting in webpack.prod.config.js: six extensions and the prefix ".async".
   */
  lemma AsyncResolverExtensions()
    ensures PrependExt([".ts", ".js", ".json", ".css", ".scss", ".html"], Single(".async")) ==
            ["", ".ts", ".async.ts", ".js", ".async.js", ".json", ".async.json",
             ".css", ".async.css", ".scss", ".async.scss", ".html", ".async.html"]
  {
    PrependExtInterleaves([".ts", ".js", ".json", ".css", ".scss", ".html"], ".async");
    AsyncInterleaving();
  }

  // ---------------------------------------------------------------------------
  // hasProcessFlag
  // ---------------------------------------------------------------------------

  /**
   * `argv.join("")`: the arguments concatenated with no separator; no
   * argument is longer than the joined line.
   */
  function Join(argv: seq<string>): (s: string)
    ensures forall i :: 0 <= i < |argv| ==> |argv[i]| <= |s|
  {
    if argv == [] then "" else argv[0] + Join(argv[1..])
  }

  /** `flag` occurs in `s` starting at index i. */
  predicate OccursAt(s: string, flag: string, i: int)
  {
    0 <= i && i + |flag| <= |s| && s[i..i + |flag|] == flag
  }

  /** Reference definition: `flag` is a substring of `s`. */
  ghost predicate IsSubstring(flag: string, s: string)
  {
    exists i :: OccursAt(s, flag, i)
  }

  /**
   * `s.indexOf(flag, from)`: the first index at or after `from` where `flag`
   * occurs, or -1 when there is none.
   */
  function IndexOfFrom(s: string, flag: string, from: nat): (r: int)
    requires from <= |s|
    ensures r == -1 || (from <= r && OccursAt(s, flag, r))
    ensures r != -1 ==> forall i :: from <= i < r ==> !OccursAt(s, flag, i)
    ensures r == -1 ==> forall i :: from <= i ==> !OccursAt(s, flag, i)
    decreases |s| - from
  {
    if from + |flag| > |s| then -1
    else if s[from..from + |flag|] == flag then from
    else IndexOfFrom(s, flag, from + 1)
  }

  /** `s.indexOf(flag)`: the first occurrence of `flag` in `s`, or -1 when it does not occur. */
  function IndexOf(s: string, flag: string): (r: int)
    ensures r == -1 <==> !IsSubstring(flag, s)
    ensures r != -1 ==> OccursAt(s, flag, r) && forall i :: 0 <= i < r ==> !OccursAt(s, flag, i)
  {
    IndexOfFrom(s, flag, 0)
  }

  /** `process.argv.join("").indexOf(flag) > -1`: a substring test, not a token test. */
  function HasProcessFlag(argv: seq<string>, flag: string): (r: bool)
    ensures r <==> IsSubstring(flag, Join(argv))
  {
    IndexOf(Join(argv), flag) > -1
  }

  /** The empty flag is found in every command line, even an empty one. */
  lemma EmptyFlagAlwaysMatches(argv: seq<string>)
    ensures HasProcessFlag(argv, "")
  {
  }

  /** The joined command line is empty exactly when every argument is empty. */
  lemma {:induction false} JoinIsEmpty(argv: seq<string>)
    ensures Join(argv) == "" <==> forall i :: 0 <= i < |argv| ==> argv[i] == ""
    decreases |argv|
  {
    if argv != [] {
      JoinIsEmpty(argv[1..]);
      assert forall i :: 1 <= i < |argv| ==> argv[i] == argv[1..][i - 1];
    }
  }

  lemma {:induction false} JoinAppend(a: seq<string>, b: seq<string>)
    ensures Join(a + b) == Join(a) + Join(b)
    decreases |a|
  {
    if a == [] {
      assert a + b == b;
    } else {
      assert (a + b)[0] == a[0];
      assert (a + b)[1..] == a[1..] + b;
      JoinAppend(a[1..], b);
      calc {
        Join(a + b);
        a[0] + Join(a[1..] + b);
        a[0] + (Join(a[1..]) + Join(b));
        (a[0] + Join(a[1..])) + Join(b);
        Join(a) + Join(b);
      }
    }
  }

  /** The joined command line splits around any one argument. */
  lemma JoinAround(argv: seq<string>, i: nat)
    requires i < |argv|
    ensures Join(argv) == Join(argv[..i]) + argv[i] + Join(argv[i + 1..])
  {
    assert argv == argv[..i] + argv[i..];
    JoinAppend(argv[..i], argv[i..]);
    assert argv[i..][1..] == argv[i + 1..];
  }

  /** A flag given as a whole argument is detected. */
  lemma ArgumentIsFlag(argv: seq<string>, i: nat)
    requires i < |argv|
    ensures HasProcessFlag(argv, argv[i])
  {
    JoinAround(argv, i);
    var s := Join(argv);
    var at := |Join(argv[..i])|;
    assert s[at..at + |argv[i]|] == argv[i];
    assert OccursAt(s, argv[i], at);
  }

  /** A match may span two neighbouring arguments: their concatenation is detected too. */
  lemma FlagSpansArguments(argv: seq<string>, i: nat)
    requires i + 1 < |argv|
    ensures HasProcessFlag(argv, argv[i] + argv[i + 1])
  {
    JoinAround(argv, i);
    var rest := argv[i + 1..];
    assert rest[1..] == argv[i + 2..];
    assert Join(rest) == argv[i + 1] + Join(argv[i + 2..]);
    var s := Join(argv);
    var flag := argv[i] + argv[i + 1];
    var at := |Join(argv[..i])|;
    assert s == Join(argv[..i]) + flag + Join(argv[i + 2..]);
    assert s[at..at + |flag|] == flag;
    assert OccursAt(s, flag, at);
  }

  /** Appending arguments never hides a flag that was already present. */
  lemma FlagSurvivesMoreArguments(argv: seq<string>, more: seq<string>, flag: string)
    requires HasProcessFlag(argv, flag)
    ensures HasProcessFlag(argv + more, flag)
  {
    JoinAppend(argv, more);
    var i :| OccursAt(Join(argv), flag, i);
    var s := Join(argv + more);
    assert s[i..i + |flag|] == Join(argv)[i..i + |flag|];
    assert OccursAt(s, flag, i);
  }
}
