/** The command parser of src/parse.c.

    A command line is a NUL-terminated string in a buffer; each `parse_*`
    routine takes the next space-separated token off it with `_strsep` and
    fills the fields of a `Command` record in place. The outcome is specified
    by pure functions over the list of tokens of the line (`Tokens`), and the
    acceptance rules of each command are lemmas about those functions.

    `_isnumeric` and `strtol` are not part of this model: they reach the
    parser as the two functions of an `Env`. */
module Parse {
  import opened Types
  import opened CString

  const SPACE: char := ' '

  /** The `MainCmd` enumeration. */
  datatype MainCmd = Undefined | AddNode | AddBlock | RmNode | RmBlock | Ls | Sync | Quit

  /** Which of the two id lists `parse_id_list` fills (its `type` argument,
      'n' or 'b'). */
  datatype IdKind = NodeIds | BlockIds

  /** The helpers the parser calls but that are not modelled: `_isnumeric`
      and `strtol(token, NULL, 10)`. */
  datatype Env = Env(isNumeric: seq<char> -> bool, strtol: seq<char> -> int)

  /** The fields of a `Command` as a value. `nids`/`bids` are the ids written
      into the current lists; `nidcount`/`bidcount` are the counts as stored,
      which are only updated when a list is filled to the end. */
  datatype Cmd = Cmd(maincmd: MainCmd, lflag: bool, all: bool,
                     nids: seq<uint32>, nidcount: nat, bids: seq<uint32>, bidcount: nat)

  // ---------------------------------------------------------------------------
  // Specification
  // ---------------------------------------------------------------------------

  /** What one id-list token means: `*`, a number, or anything else. */
  datatype Arg = Star | Id(v: uint32) | Bad

  /** The conversion of the `long` that `strtol` returns to the `unsigned int`
      stored in the list: reduction modulo 2^32. */
  function ToUint32(v: int): (r: uint32)
    ensures r as int % 0x1_0000_0000 == v % 0x1_0000_0000
  {
    (v % 0x1_0000_0000) as uint32
  }

  /** `*` is tested first, then `_isnumeric`. */
  function Classify(t: seq<char>, env: Env): Arg
  {
    if t == "*" then Star
    else if !env.isNumeric(t) then Bad
    else Id(ToUint32(env.strtol(t)))
  }

  /** The state of the filling loop of `parse_id_list` after it has looked at
      the tokens `ts`: whether a `*` was seen, the ids stored, whether a bad
      token stopped it, and how many tokens it took off the line. */
  datatype Scan = Scan(star: bool, ids: seq<uint32>, bad: bool, used: nat)

  /** The filling loop run over the first `i` tokens of `ts`, one token per
      round; a bad token ends it and the tokens after it are not taken. */
  function ScanArgs(ts: seq<seq<char>>, i: nat, env: Env): (r: Scan)
    requires i <= |ts|
    ensures |r.ids| <= r.used <= i
  {
    if i == 0 then Scan(false, [], false, 0)
    else
      var r := ScanArgs(ts, i - 1, env);
      if r.bad then r
      else match Classify(ts[i - 1], env)
        case Star => r.(star := true, used := i)
        case Bad => r.(bad := true, used := i)
        case Id(v) => r.(ids := r.ids + [v], used := i)
  }

  /** How many tokens the filling loop may look at: all of them when `n` is
      0, otherwise at most `n`. */
  function Limit(count: nat, n: nat): (m: nat)
    ensures m <= count && (n > 0 ==> m <= n)
  {
    if n == 0 || count <= n then count else n
  }

  /** `parse_id_list` on a line holding the tokens `ts`: the new command and
      the number of tokens taken off the line. With no token nothing changes;
      otherwise a new list holds the ids stored, `all` is set when a `*` was
      seen, and a bad token makes the command `Undefined` and leaves the count
      as it was. */
  function IdList(c: Cmd, ts: seq<seq<char>>, n: nat, kind: IdKind, env: Env): (r: (Cmd, nat))
    ensures r.1 <= Limit(|ts|, n)
  {
    if ts == [] then (c, 0)
    else
      var s := ScanArgs(ts, Limit(|ts|, n), env);
      (Record(c, s, kind), s.used)
  }

  /** What a finished filling loop leaves in the command: `all` is set when a
      `*` was seen, the list holds the ids stored, and a bad token makes the
      command `Undefined` and leaves the count as it was. */
  function Record(c: Cmd, s: Scan, kind: IdKind): Cmd
  {
    var c1 := c.(all := c.all || s.star, maincmd := if s.bad then Undefined else c.maincmd);
    match kind
      case NodeIds => c1.(nids := s.ids, nidcount := if s.bad then c.nidcount else |s.ids|)
      case BlockIds => c1.(bids := s.ids, bidcount := if s.bad then c.bidcount else |s.ids|)
  }

  /** `parse_add_cmd` on the tokens after `add`. */
  function AddCmd(c: Cmd, ts: seq<seq<char>>, env: Env): (r: (Cmd, nat))
    ensures r.1 <= |ts|
  {
    if ts == [] then (c, 0)
    else if ts[0] == "node" then var (c1, k) := AddNodeArgs(c, ts[1..], env); (c1, 1 + k)
    else if ts[0] == "block" then var (c1, k) := AddBlockArgs(c, ts[1..], env); (c1, 1 + k)
    else (c, 1)
  }

  /** The `add node` branch of `parse_add_cmd`, on the tokens after `node`. */
  function AddNodeArgs(c: Cmd, ts: seq<seq<char>>, env: Env): (r: (Cmd, nat))
    ensures r.1 <= |ts|
  {
    var (c1, k) := IdList(c.(maincmd := AddNode), ts, 0, NodeIds, env);
    (if c1.nidcount == 0 then c1.(maincmd := Undefined) else c1, k)
  }

  /** The `add block` branch of `parse_add_cmd`, on the tokens after `block`:
      one block id, then the node ids. */
  function AddBlockArgs(c: Cmd, ts: seq<seq<char>>, env: Env): (r: (Cmd, nat))
    ensures r.1 <= |ts|
  {
    var (c1, k1) := IdList(c.(maincmd := AddBlock), ts, 1, BlockIds, env);
    var (c2, k2) := IdList(c1, ts[k1..], 0, NodeIds, env);
    (if (c2.nidcount == 0 && !c2.all) || c2.bidcount == 0 then c2.(maincmd := Undefined) else c2, k1 + k2)
  }

  /** `parse_rm_cmd` on the tokens after `rm`. */
  function RmCmd(c: Cmd, ts: seq<seq<char>>, env: Env): (r: (Cmd, nat))
    ensures r.1 <= |ts|
  {
    if ts == [] then (c, 0)
    else if ts[0] == "node" then var (c1, k) := RmNodeArgs(c, ts[1..], env); (c1, 1 + k)
    else if ts[0] == "block" then var (c1, k) := RmBlockArgs(c, ts[1..], env); (c1, 1 + k)
    else (c, 1)
  }

  /** The `rm node` branch of `parse_rm_cmd`: `*` alone is enough. */
  function RmNodeArgs(c: Cmd, ts: seq<seq<char>>, env: Env): (r: (Cmd, nat))
    ensures r.1 <= |ts|
  {
    var (c1, k) := IdList(c.(maincmd := RmNode), ts, 0, NodeIds, env);
    (if c1.nidcount == 0 && !c1.all then c1.(maincmd := Undefined) else c1, k)
  }

  /** The `rm block` branch of `parse_rm_cmd`. */
  function RmBlockArgs(c: Cmd, ts: seq<seq<char>>, env: Env): (r: (Cmd, nat))
    ensures r.1 <= |ts|
  {
    var (c1, k) := IdList(c.(maincmd := RmBlock), ts, 0, BlockIds, env);
    (if c1.bidcount == 0 then c1.(maincmd := Undefined) else c1, k)
  }

  /** `parse_ls_cmd` on the tokens after `ls`: only the first one is read. */
  function LsCmd(c: Cmd, ts: seq<seq<char>>): (r: (Cmd, nat))
    ensures r.1 <= |ts|
  {
    if ts == [] then (c.(maincmd := Ls), 0)
    else (c.(maincmd := Ls, lflag := c.lflag || ts[0] == "-l"), 1)
  }

  /** `parse_cmd` on a line holding the tokens `ts`, at least one. */
  function ParseLine(c: Cmd, ts: seq<seq<char>>, env: Env): Cmd
    requires ts != []
  {
    if ts[0] == "add" then AddCmd(c, ts[1..], env).0
    else if ts[0] == "rm" then RmCmd(c, ts[1..], env).0
    else if ts[0] == "ls" then LsCmd(c, ts[1..]).0
    else if ts[0] == "sync" then c.(maincmd := Sync)
    else if ts[0] == "quit" then c.(maincmd := Quit)
    else c
  }

  // ---------------------------------------------------------------------------
  // Properties of the specification
  // ---------------------------------------------------------------------------

  /** Every token is `*` or numeric. */
  ghost predicate Wellformed(ts: seq<seq<char>>, env: Env)
  {
    forall i :: 0 <= i < |ts| ==> !Classify(ts[i], env).Bad?
  }

  /** Some token is a number (and not `*`). */
  ghost predicate SomeId(ts: seq<seq<char>>, env: Env)
  {
    exists i :: 0 <= i < |ts| && Classify(ts[i], env).Id?
  }

  /** The numbers among `ts`, in order; `*` and bad tokens contribute none. */
  function IdsIn(ts: seq<seq<char>>, env: Env): (r: seq<uint32>)
    decreases |ts|
  {
    if ts == [] then []
    else match Classify(ts[|ts| - 1], env)
      case Id(v) => IdsIn(ts[..|ts| - 1], env) + [v]
      case _ => IdsIn(ts[..|ts| - 1], env)
  }

  /** Every id that `IdsIn` collects is the value of a numeric token that is
      not `*`, and there are ids exactly when some token is numeric. */
  lemma {:induction false} IdsInFromNumbers(ts: seq<seq<char>>, env: Env)
    ensures forall j :: 0 <= j < |IdsIn(ts, env)| ==>
      exists i :: 0 <= i < |ts| && ts[i] != "*" && env.isNumeric(ts[i]) && IdsIn(ts, env)[j] == ToUint32(env.strtol(ts[i]))
    ensures IdsIn(ts, env) != [] <==> SomeId(ts, env)
    decreases |ts|
  {
    if ts != [] {
      var init := ts[..|ts| - 1];
      IdsInFromNumbers(init, env);
      forall j | 0 <= j < |IdsIn(ts, env)|
        ensures exists i :: 0 <= i < |ts| && ts[i] != "*" && env.isNumeric(ts[i]) && IdsIn(ts, env)[j] == ToUint32(env.strtol(ts[i]))
      {
        if j < |IdsIn(init, env)| {
          assert IdsIn(ts, env)[j] == IdsIn(init, env)[j];
          var i :| 0 <= i < |init| && init[i] != "*" && env.isNumeric(init[i]) && IdsIn(init, env)[j] == ToUint32(env.strtol(init[i]));
          assert ts[i] == init[i];
        } else {
          var last := ts[|ts| - 1];
          assert last != "*" && env.isNumeric(last) && IdsIn(ts, env)[j] == ToUint32(env.strtol(last));
        }
      }
      if SomeId(init, env) {
        var i :| 0 <= i < |init| && Classify(init[i], env).Id?;
        assert ts[i] == init[i];
      }
      if SomeId(ts, env) && !Classify(ts[|ts| - 1], env).Id? {
        var i :| 0 <= i < |ts| && Classify(ts[i], env).Id?;
        assert init[i] == ts[i];
      }
    } else {
      assert IdsIn(ts, env) == [];
    }
  }

  /** The filling loop runs over the first `i` tokens to the end exactly
      when every one of them is `*` or numeric; it then stores the numbers
      among them, in order, and records whether a `*` was among them. */
  lemma {:induction false} ScanArgsWellformed(ts: seq<seq<char>>, i: nat, env: Env)
    requires i <= |ts|
    ensures !ScanArgs(ts, i, env).bad <==> Wellformed(ts[..i], env)
    ensures Wellformed(ts[..i], env) ==>
      ScanArgs(ts, i, env).ids == IdsIn(ts[..i], env) && ScanArgs(ts, i, env).used == i
      && (ScanArgs(ts, i, env).star <==> "*" in ts[..i])
  {
    if i > 0 {
      var init := ts[..i - 1];
      ScanArgsWellformed(ts, i - 1, env);
      assert ts[..i][..i - 1] == init && ts[..i] == init + [ts[i - 1]];
      if Wellformed(ts[..i], env) {
        assert Wellformed(init, env) by {
          forall k | 0 <= k < |init| ensures !Classify(init[k], env).Bad? {
            assert init[k] == ts[..i][k];
          }
        }
      } else if Wellformed(init, env) {
        assert forall k :: 0 <= k < |init| ==> init[k] == ts[..i][k];
        assert Classify(ts[i - 1], env).Bad?;
      }
    }
  }

  /** A bad token stops the loop: it is the last token the loop took off the
      line, the loop had run to it without stopping, and no id was stored
      for it. */
  lemma {:induction false} ScanArgsStops(ts: seq<seq<char>>, i: nat, env: Env)
    requires i <= |ts| && ScanArgs(ts, i, env).bad
    ensures var s := ScanArgs(ts, i, env);
      && 1 <= s.used <= i && Classify(ts[s.used - 1], env) == Bad
      && !ScanArgs(ts, s.used - 1, env).bad && s.ids == ScanArgs(ts, s.used - 1, env).ids
  {
    if ScanArgs(ts, i - 1, env).bad {
      ScanArgsStops(ts, i - 1, env);
    }
  }

  /** Once the loop has stopped on a bad token, the tokens after it change
      nothing. */
  lemma {:induction false} ScanArgsAfterBad(ts: seq<seq<char>>, env: Env, j: nat, m: nat)
    requires j <= m <= |ts| && ScanArgs(ts, j, env).bad
    ensures ScanArgs(ts, m, env) == ScanArgs(ts, j, env)
  {
    if j < m {
      ScanArgsAfterBad(ts, env, j, m - 1);
    }
  }

  /** The line a command starts from: no `*` seen and both counts zero, as
      after `new_cmd`. */
  ghost predicate Zeroed(c: Cmd)
  {
    !c.all && c.nidcount == 0 && c.bidcount == 0
  }

  /** `parse_id_list` on a non-empty list of tokens that are all `*` or
      numeric: every token (up to the limit) is taken, the numbers are
      stored and counted, and `*` sets `all`. */
  lemma IdListWellformed(c: Cmd, ts: seq<seq<char>>, n: nat, kind: IdKind, env: Env)
    requires ts != [] && Wellformed(ts[..Limit(|ts|, n)], env)
    ensures var (c1, k) := IdList(c, ts, n, kind, env);
      var ids := IdsIn(ts[..Limit(|ts|, n)], env);
      && k == Limit(|ts|, n) && c1.maincmd == c.maincmd && c1.lflag == c.lflag
      && (c1.all <==> c.all || "*" in ts[..Limit(|ts|, n)])
      && (kind == NodeIds ==> c1.nids == ids && c1.nidcount == |ids| && c1.bids == c.bids && c1.bidcount == c.bidcount)
      && (kind == BlockIds ==> c1.bids == ids && c1.bidcount == |ids| && c1.nids == c.nids && c1.nidcount == c.nidcount)
  {
    ScanArgsWellformed(ts, Limit(|ts|, n), env);
  }

  /** `parse_id_list` on tokens among the first `Limit` of which one is bad:
      the command becomes `Undefined`, the count keeps its old value, and the
      line has lost the tokens up to and including the bad one. */
  lemma IdListBad(c: Cmd, ts: seq<seq<char>>, n: nat, kind: IdKind, env: Env)
    requires ts != [] && !Wellformed(ts[..Limit(|ts|, n)], env)
    ensures var (c1, k) := IdList(c, ts, n, kind, env);
      && 1 <= k <= Limit(|ts|, n) && Classify(ts[k - 1], env) == Bad
      && c1.maincmd == Undefined && c1.lflag == c.lflag && c1.nidcount == c.nidcount && c1.bidcount == c.bidcount
      && (c.all ==> c1.all)
  {
    var m := Limit(|ts|, n);
    ScanArgsWellformed(ts, m, env);
    ScanArgsStops(ts, m, env);
  }

  /** `add node ids...` from a zeroed command ends as `ADD_NODE` exactly when
      every id is `*` or numeric and at least one is numeric; the list then
      holds the numbers, in order. Otherwise the command is `UNDEFINED`. */
  lemma AddNodeAccepts(c: Cmd, args: seq<seq<char>>, env: Env)
    requires Zeroed(c)
    ensures var r := ParseLine(c, ["add", "node"] + args, env);
      && (r.maincmd == AddNode <==> Wellformed(args, env) && SomeId(args, env))
      && (r.maincmd == AddNode || r.maincmd == Undefined)
      && (r.maincmd == AddNode ==> r.nids == IdsIn(args, env) && r.nidcount == |r.nids|)
  {
    var ts := ["add", "node"] + args;
    assert ts[0] == "add" && ts[1..][0] == "node" && ts[1..][1..] == args;
    IdsInFromNumbers(args, env);
    if args != [] {
      assert args[..Limit(|args|, 0)] == args;
      if Wellformed(args, env) {
        IdListWellformed(c.(maincmd := AddNode), args, 0, NodeIds, env);
      } else {
        IdListBad(c.(maincmd := AddNode), args, 0, NodeIds, env);
      }
    }
  }

  /** `add block bid nids...` from a zeroed command ends as `ADD_BLOCK`
      exactly when the bid is a number, at least one token follows it and
      every one of those is `*` or numeric. The block list then holds the one
      bid and the node list the numbers after it. */
  lemma AddBlockAccepts(c: Cmd, args: seq<seq<char>>, env: Env)
    requires Zeroed(c)
    ensures var r := ParseLine(c, ["add", "block"] + args, env);
      && (r.maincmd == AddBlock <==> |args| >= 2 && Classify(args[0], env).Id? && Wellformed(args[1..], env))
      && (r.maincmd == AddBlock || r.maincmd == Undefined)
      && (r.maincmd == AddBlock ==>
            && r.bids == [Classify(args[0], env).v] && r.bidcount == 1
            && r.nids == IdsIn(args[1..], env) && r.nidcount == |r.nids|
            && (r.all <==> "*" in args[1..]))
  {
    var ts := ["add", "block"] + args;
    assert ts[0] == "add" && ts[1..][0] == "block" && ts[1..][1..] == args;
    if args == [] {
      return;
    }
    var c0 := c.(maincmd := AddBlock);
    var (c1, k1) := IdList(c0, args, 1, BlockIds, env);
    assert args[..Limit(|args|, 1)] == [args[0]];
    assert IdsIn([args[0]], env) == IdsIn([], env) + (if Classify(args[0], env).Id? then [Classify(args[0], env).v] else []);
    if Wellformed([args[0]], env) {
      IdListWellformed(c0, args, 1, BlockIds, env);
    } else {
      IdListBad(c0, args, 1, BlockIds, env);
    }
    assert k1 == 1 && args[1..] == args[k1..];
    var rest := args[1..];
    IdsInFromNumbers(rest, env);
    if rest != [] {
      assert rest[..Limit(|rest|, 0)] == rest;
      if Wellformed(rest, env) {
        IdListWellformed(c1, rest, 0, NodeIds, env);
        if !SomeId(rest, env) {
          assert Classify(rest[0], env) == Star;
          assert "*" in rest;
        }
      } else {
        IdListBad(c1, rest, 0, NodeIds, env);
      }
    }
  }

  /** `rm node ids...` from a zeroed command ends as `RM_NODE` exactly when
      there is at least one id and every one is `*` or numeric. */
  lemma RmNodeAccepts(c: Cmd, args: seq<seq<char>>, env: Env)
    requires Zeroed(c)
    ensures var r := ParseLine(c, ["rm", "node"] + args, env);
      && (r.maincmd == RmNode <==> args != [] && Wellformed(args, env))
      && (r.maincmd == RmNode || r.maincmd == Undefined)
      && (r.maincmd == RmNode ==> r.nids == IdsIn(args, env) && r.nidcount == |r.nids| && (r.all <==> "*" in args))
  {
    var ts := ["rm", "node"] + args;
    assert ts[0] == "rm" && ts[1..][0] == "node" && ts[1..][1..] == args;
    IdsInFromNumbers(args, env);
    if args != [] {
      assert args[..Limit(|args|, 0)] == args;
      if Wellformed(args, env) {
        IdListWellformed(c.(maincmd := RmNode), args, 0, NodeIds, env);
        if !SomeId(args, env) {
          assert Classify(args[0], env) == Star;
          assert "*" in args;
        }
      } else {
        IdListBad(c.(maincmd := RmNode), args, 0, NodeIds, env);
      }
    }
  }

  /** `rm block bids...` from a zeroed command ends as `RM_BLOCK` exactly
      when every bid is `*` or numeric and at least one is numeric. */
  lemma RmBlockAccepts(c: Cmd, args: seq<seq<char>>, env: Env)
    requires Zeroed(c)
    ensures var r := ParseLine(c, ["rm", "block"] + args, env);
      && (r.maincmd == RmBlock <==> Wellformed(args, env) && SomeId(args, env))
      && (r.maincmd == RmBlock || r.maincmd == Undefined)
      && (r.maincmd == RmBlock ==> r.bids == IdsIn(args, env) && r.bidcount == |r.bids|)
  {
    var ts := ["rm", "block"] + args;
    assert ts[0] == "rm" && ts[1..][0] == "block" && ts[1..][1..] == args;
    IdsInFromNumbers(args, env);
    if args != [] {
      assert args[..Limit(|args|, 0)] == args;
      if Wellformed(args, env) {
        IdListWellformed(c.(maincmd := RmBlock), args, 0, BlockIds, env);
      } else {
        IdListBad(c.(maincmd := RmBlock), args, 0, BlockIds, env);
      }
    }
  }

  /** `ls` sets `LS`, and sets `lflag` when the token after it is exactly
      `-l`; nothing else changes. */
  lemma LsSetsFlag(c: Cmd, rest: seq<seq<char>>, env: Env)
    ensures var r := ParseLine(c, ["ls"] + rest, env);
      r == c.(maincmd := Ls, lflag := c.lflag || (rest != [] && rest[0] == "-l"))
  {
    assert (["ls"] + rest)[0] == "ls" && (["ls"] + rest)[1..] == rest;
  }

  /** `sync` and `quit` set their command whatever follows them, and a first
      token that is not a command name leaves the command as it was. */
  lemma Dispatch(c: Cmd, ts: seq<seq<char>>, env: Env)
    requires ts != []
    ensures ts[0] == "sync" ==> ParseLine(c, ts, env) == c.(maincmd := Sync)
    ensures ts[0] == "quit" ==> ParseLine(c, ts, env) == c.(maincmd := Quit)
    ensures ts[0] !in {"add", "rm", "ls", "sync", "quit"} ==> ParseLine(c, ts, env) == c
  {
  }

  /** `add` or `rm` followed by nothing, or by something other than `node`
      or `block`, leaves the command as it was. */
  lemma UnknownObject(c: Cmd, verb: seq<char>, rest: seq<seq<char>>, env: Env)
    requires verb == "add" || verb == "rm"
    requires rest == [] || (rest[0] != "node" && rest[0] != "block")
    ensures ParseLine(c, [verb] + rest, env) == c
  {
    assert ([verb] + rest)[0] == verb && ([verb] + rest)[1..] == rest;
  }

  /** Once a command is `Undefined`, the rest of `parse_id_list` and its
      callers never set it back to a defined command. */
  lemma UndefinedStays(c: Cmd, ts: seq<seq<char>>, n: nat, kind: IdKind, env: Env)
    requires c.maincmd == Undefined
    ensures IdList(c, ts, n, kind, env).0.maincmd == Undefined
  {
  }

  // ---------------------------------------------------------------------------
  // The record and the routines
  // ---------------------------------------------------------------------------

  /** The `Command` record filled by the parser. The ghost `nids`/`bids` are
      the ids written into the current lists. */
  class Command {
    var maincmd: MainCmd
    var lflag: bool
    var all: bool
    var nidlist: array?<uint32>
    var nidcount: nat
    var bidlist: array?<uint32>
    var bidcount: nat
    ghost var nids: seq<uint32>
    ghost var bids: seq<uint32>

    /** Each list holds the ids recorded for it; the two lists are distinct. */
    ghost predicate Valid()
      reads this, nidlist, bidlist
    {
      && (nidlist == null ==> nids == [])
      && (nidlist != null ==> |nids| <= nidlist.Length && nidlist[..|nids|] == nids)
      && (bidlist == null ==> bids == [])
      && (bidlist != null ==> |bids| <= bidlist.Length && bidlist[..|bids|] == bids)
      && (nidlist != null && bidlist != null ==> nidlist != bidlist)
    }

    /** The record as a value. */
    ghost function Value(): Cmd
      reads this
    {
      Cmd(maincmd, lflag, all, nids, nidcount, bids, bidcount)
    }

    /** `new_cmd`: the zero-initialised static record. */
    constructor ()
      ensures Valid() && Value() == Cmd(Undefined, false, false, [], 0, [], 0)
    {
      maincmd, lflag, all := Undefined, false, false;
      nidlist, nidcount, bidlist, bidcount := null, 0, null, 0;
      nids, bids := [], [];
    }
  }

  /** True everywhere; `LineHolds` and `TokenAt` are stated under it, so
      that the solver unfolds the strings of a line only where a term
      `Looked(k)` is in sight (as in `TakeToken`) and elsewhere carries those
      facts whole. */
  ghost predicate Looked(k: nat)
  {
    true
  }

  /** The line at `q` is a string whose tokens are `ts`. */
  ghost predicate LineHolds(line: array<char>, q: nat, ts: seq<seq<char>>)
    reads line
  {
    forall k {:trigger Looked(k)} :: Looked(k) ==> Terminated(line[..], q) && Tokens(Str(line[..], q), SPACE) == ts
  }

  /** The string at `t` is the token `tok`. */
  ghost predicate TokenAt(line: array<char>, t: nat, tok: seq<char>)
    reads line
  {
    forall k {:trigger Looked(k)} :: Looked(k) ==> Terminated(line[..], t) && Str(line[..], t) == tok
  }

  /** `_strsep(line, &delim)` on a line whose tokens from the `j`-th on are
      left: no token when none is left, otherwise the `j`-th token, with the
      line moved past it. */
  method TakeToken(line: array<char>, p: nat, ghost ts: seq<seq<char>>, ghost j: nat) returns (token: Option<nat>, q: nat)
    requires j <= |ts| && LineHolds(line, p, ts[j..])
    modifies line
    ensures j == |ts| ==> token == None && LineHolds(line, q, ts[j..])
    ensures j < |ts| ==> token.Some? && TokenAt(line, token.value, ts[j]) && LineHolds(line, q, ts[j + 1..])
  {
    assert Looked(0);
    if j < |ts| {
      assert ts[j..][0] == ts[j] && ts[j..][1..] == ts[j + 1..];
    }
    token, q := Strsep(line, p, SPACE);
  }

  /** `!_strcmp(lit, token)`: the token at `t` equals the literal `lit`. */
  method Matches(lit: seq<char>, line: array<char>, t: nat, ghost tok: seq<char>) returns (r: bool)
    requires NUL !in lit && TokenAt(line, t, tok)
    ensures r <==> tok == lit
  {
    assert Looked(0);
    var a := new char[|lit| + 1](i requires 0 <= i <= |lit| => if i < |lit| then lit[i] else NUL);
    assert a[..] == lit + [NUL];
    StrOfLiteral(lit);
    var c := Strcmp(a, 0, line, t);
    CompareZeroIffEqual(lit, tok);
    r := c == 0;
  }

  /** One round of the filling loop of `parse_id_list` up to the point where
      it acts: the next token is taken off the line, compared with `"*"`,
      tested with `_isnumeric` and converted with `strtol`. */
  method NextArg(line: array<char>, p: nat, env: Env, ghost ts: seq<seq<char>>, ghost i: nat) returns (arg: Arg, q: nat)
    requires i < |ts| && LineHolds(line, p, ts[i..])
    modifies line
    ensures arg == Classify(ts[i], env) && LineHolds(line, q, ts[i + 1..])
  {
    var token;
    token, q := TakeToken(line, p, ts, i);
    var t := token.value;
    var star := Matches("*", line, t, ts[i]);
    if star {
      return Star, q;
    }
    assert Looked(0);
    var text := Str(line[..], t);
    if !env.isNumeric(text) {
      return Bad, q;
    }
    arg := Id(ToUint32(env.strtol(text)));
  }

  /** The counting loop of `parse_id_list`: the line is copied into a buffer
      of its own length and cut into tokens there, so the line itself is left
      untouched. */
  method CountTokens(line: array<char>, p: nat, ghost ts: seq<seq<char>>) returns (count: nat)
    requires LineHolds(line, p, ts)
    ensures count == |ts|
  {
    assert Looked(0);
    var len := Strlen(line, p);
    var copy := new char[len + 1];
    Strcpy(copy, 0, line, p);
    var q := 0;
    count := 0;
    while true
      invariant Terminated(copy[..], q) && count + |Tokens(Str(copy[..], q), SPACE)| == |ts|
      decreases |Tokens(Str(copy[..], q), SPACE)|
    {
      var token;
      token, q := Strsep(copy, q, SPACE);
      if token == None {
        break;
      }
      count := count + 1;
    }
  }

  /** `parse_id_list(command, line, n, type)` on the string at `p`, whose
      tokens are `ts`: returns where the line now starts. */
  method ParseIdList(cmd: Command, line: array<char>, p: nat, n: nat, kind: IdKind, env: Env,
                     ghost ts: seq<seq<char>>) returns (q: nat)
    requires cmd.Valid() && LineHolds(line, p, ts)
    modifies cmd, line
    ensures cmd.Valid()
    ensures var (c, k) := IdList(old(cmd.Value()), ts, n, kind, env);
      cmd.Value() == c && LineHolds(line, q, ts[k..])
  {
    var count := CountTokens(line, p, ts);
    if count == 0 {
      return p;
    }
    var list := new uint32[count];
    if kind == NodeIds {
      cmd.nidlist := list;
    } else {
      cmd.bidlist := list;
    }
    var max := if n == 0 then count else n;
    assert Limit(|ts|, n) == if count <= max then count else max;
    var stored, bad;
    q, stored, bad := FillIds(cmd, line, p, list, count, max, env, ts);
    if kind == NodeIds {
      cmd.nids := list[..stored];
    } else {
      cmd.bids := list[..stored];
    }
    if bad {
      return;
    }
    if kind == NodeIds {
      cmd.nidcount := stored;
    } else {
      cmd.bidcount := stored;
    }
  }

  /** The filling loop of `parse_id_list`: at most `max` of the `count`
      tokens `ts` of the line are taken off it; a `*` sets `all`, a number is
      stored in `list`, and anything else makes the command `Undefined` and
      ends the loop with `bad` set (the routine then returns). */
  method FillIds(cmd: Command, line: array<char>, p: nat, list: array<uint32>, count: nat, max: nat,
                 env: Env, ghost ts: seq<seq<char>>) returns (q: nat, stored: nat, bad: bool)
    requires LineHolds(line, p, ts) && count == |ts| == list.Length && max >= 1
    modifies cmd`all, cmd`maincmd, line, list
    ensures var s := ScanArgs(ts, if count <= max then count else max, env);
      && bad == s.bad && stored == |s.ids| && list[..stored] == s.ids
      && cmd.all == (old(cmd.all) || s.star) && cmd.maincmd == (if s.bad then Undefined else old(cmd.maincmd))
      && LineHolds(line, q, ts[s.used..])
  {
    ghost var m := if count <= max then count else max;
    var i := 0;
    stored := 0;
    q := p;
    ghost var sc := ScanArgs(ts, 0, env);
    while i < count && i < max
      invariant i <= m && LineHolds(line, q, ts[i..])
      invariant sc == ScanArgs(ts, i, env) && !sc.bad && sc.used == i
      invariant stored == |sc.ids| && list[..stored] == sc.ids
      invariant cmd.all == (old(cmd.all) || sc.star) && cmd.maincmd == old(cmd.maincmd)
      decreases count - i
    {
      q, stored, bad := FillRound(cmd, line, q, list, stored, env, ts, i);
      sc := ScanArgs(ts, i + 1, env);
      if bad {
        ScanArgsAfterBad(ts, env, i + 1, m);
        assert ts[ScanArgs(ts, m, env).used..] == ts[i + 1..];
        return;
      }
      i := i + 1;
    }
    assert i == m && ts[ScanArgs(ts, m, env).used..] == ts[i..];
    bad := false;
  }

  /** One round of the filling loop, on token `i` of the line: a `*` sets
      `all`, a number is stored after the `stored` ids already in `list`,
      and anything else makes the command `Undefined` and reports that the
      routine returns. */
  method FillRound(cmd: Command, line: array<char>, q: nat, list: array<uint32>, stored: nat, env: Env,
                   ghost ts: seq<seq<char>>, ghost i: nat) returns (q': nat, stored': nat, bad: bool)
    requires i < |ts| == list.Length && LineHolds(line, q, ts[i..])
    requires !ScanArgs(ts, i, env).bad && stored == |ScanArgs(ts, i, env).ids| && list[..stored] == ScanArgs(ts, i, env).ids
    modifies cmd`all, cmd`maincmd, line, list
    ensures var s := ScanArgs(ts, i + 1, env);
      && LineHolds(line, q', ts[i + 1..]) && s.used == i + 1 && bad == s.bad && stored' == |s.ids| && list[..stored'] == s.ids
      && cmd.all == (old(cmd.all) || Classify(ts[i], env) == Star) && cmd.maincmd == (if bad then Undefined else old(cmd.maincmd))
  {
    var arg;
    arg, q' := NextArg(line, q, env, ts, i);
    stored', bad := stored, false;
    if arg == Star {
      cmd.all := true;
      return;
    }
    if arg == Bad {
      cmd.maincmd := Undefined;
      return q', stored', true;
    }
    var id := arg.v;
    list[stored] := id;
    assert list[..stored + 1] == list[..stored] + [id];
    stored' := stored + 1;
  }

  /** `parse_add_cmd` on a line whose tokens from the `j`-th on are left:
      returns where the line now starts. */
  method ParseAdd(cmd: Command, line: array<char>, p: nat, env: Env, ghost ts: seq<seq<char>>, ghost j: nat)
    returns (q: nat)
    requires cmd.Valid() && j <= |ts| && LineHolds(line, p, ts[j..])
    modifies cmd, line
    ensures cmd.Valid()
    ensures var (c, k) := AddCmd(old(cmd.Value()), ts[j..], env);
      cmd.Value() == c && LineHolds(line, q, ts[j + k..])
  {
    ghost var res := AddCmd(cmd.Value(), ts[j..], env);
    var token;
    token, q := TakeToken(line, p, ts, j);
    if token == None {
      return;
    }
    assert ts[j..][0] == ts[j] && ts[j..][1..] == ts[j + 1..];
    var isNode := Matches("node", line, token.value, ts[j]);
    if isNode {
      ghost var r := AddNodeArgs(cmd.Value(), ts[j + 1..], env);
      assert res == (r.0, 1 + r.1);
      q := ParseAddNode(cmd, line, q, env, ts[j + 1..]);
      assert ts[j + 1..][r.1..] == ts[j + res.1..];
      return;
    }
    var isBlock := Matches("block", line, token.value, ts[j]);
    if isBlock {
      ghost var r := AddBlockArgs(cmd.Value(), ts[j + 1..], env);
      assert res == (r.0, 1 + r.1);
      q := ParseAddBlock(cmd, line, q, env, ts[j + 1..]);
      assert ts[j + 1..][r.1..] == ts[j + res.1..];
    }
  }

  /** The `add node` branch: the node ids, at least one of them wanted. */
  method ParseAddNode(cmd: Command, line: array<char>, p: nat, env: Env, ghost ts: seq<seq<char>>)
    returns (q: nat)
    requires cmd.Valid() && LineHolds(line, p, ts)
    modifies cmd, line
    ensures cmd.Valid()
    ensures var (c, k) := AddNodeArgs(old(cmd.Value()), ts, env);
      cmd.Value() == c && LineHolds(line, q, ts[k..])
  {
    ghost var r := AddNodeArgs(cmd.Value(), ts, env);
    cmd.maincmd := AddNode;
    ghost var k := IdList(cmd.Value(), ts, 0, NodeIds, env).1;
    assert k == r.1;
    q := ParseIdList(cmd, line, p, 0, NodeIds, env, ts);
    if cmd.nidcount == 0 {
      cmd.maincmd := Undefined;
    }
    assert cmd.Value() == r.0;
  }

  /** The `add block` branch: one block id, then the node ids. */
  method ParseAddBlock(cmd: Command, line: array<char>, p: nat, env: Env, ghost ts: seq<seq<char>>)
    returns (q: nat)
    requires cmd.Valid() && LineHolds(line, p, ts)
    modifies cmd, line
    ensures cmd.Valid()
    ensures var (c, k) := AddBlockArgs(old(cmd.Value()), ts, env);
      cmd.Value() == c && LineHolds(line, q, ts[k..])
  {
    ghost var r := AddBlockArgs(cmd.Value(), ts, env);
    cmd.maincmd := AddBlock;
    ghost var k1 := IdList(cmd.Value(), ts, 1, BlockIds, env).1;
    q := ParseIdList(cmd, line, p, 1, BlockIds, env, ts);
    ghost var rest := ts[k1..];
    ghost var k2 := IdList(cmd.Value(), rest, 0, NodeIds, env).1;
    assert k1 + k2 == r.1;
    q := ParseIdList(cmd, line, q, 0, NodeIds, env, rest);
    if (cmd.nidcount == 0 && !cmd.all) || cmd.bidcount == 0 {
      cmd.maincmd := Undefined;
    }
    assert cmd.Value() == r.0;
    assert rest[k2..] == ts[r.1..];
  }

  /** `parse_rm_cmd` on a line whose tokens from the `j`-th on are left:
      returns where the line now starts. */
  method ParseRm(cmd: Command, line: array<char>, p: nat, env: Env, ghost ts: seq<seq<char>>, ghost j: nat)
    returns (q: nat)
    requires cmd.Valid() && j <= |ts| && LineHolds(line, p, ts[j..])
    modifies cmd, line
    ensures cmd.Valid()
    ensures var (c, k) := RmCmd(old(cmd.Value()), ts[j..], env);
      cmd.Value() == c && LineHolds(line, q, ts[j + k..])
  {
    ghost var res := RmCmd(cmd.Value(), ts[j..], env);
    var token;
    token, q := TakeToken(line, p, ts, j);
    if token == None {
      return;
    }
    assert ts[j..][0] == ts[j] && ts[j..][1..] == ts[j + 1..];
    var isNode := Matches("node", line, token.value, ts[j]);
    if isNode {
      ghost var r := RmNodeArgs(cmd.Value(), ts[j + 1..], env);
      assert res == (r.0, 1 + r.1);
      q := ParseRmNode(cmd, line, q, env, ts[j + 1..]);
      assert ts[j + 1..][r.1..] == ts[j + res.1..];
      return;
    }
    var isBlock := Matches("block", line, token.value, ts[j]);
    if isBlock {
      ghost var r := RmBlockArgs(cmd.Value(), ts[j + 1..], env);
      assert res == (r.0, 1 + r.1);
      q := ParseRmBlock(cmd, line, q, env, ts[j + 1..]);
      assert ts[j + 1..][r.1..] == ts[j + res.1..];
    }
  }

  /** The `rm node` branch: node ids, or `*` for every node. */
  method ParseRmNode(cmd: Command, line: array<char>, p: nat, env: Env, ghost ts: seq<seq<char>>)
    returns (q: nat)
    requires cmd.Valid() && LineHolds(line, p, ts)
    modifies cmd, line
    ensures cmd.Valid()
    ensures var (c, k) := RmNodeArgs(old(cmd.Value()), ts, env);
      cmd.Value() == c && LineHolds(line, q, ts[k..])
  {
    ghost var r := RmNodeArgs(cmd.Value(), ts, env);
    cmd.maincmd := RmNode;
    ghost var k := IdList(cmd.Value(), ts, 0, NodeIds, env).1;
    assert k == r.1;
    q := ParseIdList(cmd, line, p, 0, NodeIds, env, ts);
    if cmd.nidcount == 0 && !cmd.all {
      cmd.maincmd := Undefined;
    }
    assert cmd.Value() == r.0;
  }

  /** The `rm block` branch: the block ids. */
  method ParseRmBlock(cmd: Command, line: array<char>, p: nat, env: Env, ghost ts: seq<seq<char>>)
    returns (q: nat)
    requires cmd.Valid() && LineHolds(line, p, ts)
    modifies cmd, line
    ensures cmd.Valid()
    ensures var (c, k) := RmBlockArgs(old(cmd.Value()), ts, env);
      cmd.Value() == c && LineHolds(line, q, ts[k..])
  {
    ghost var r := RmBlockArgs(cmd.Value(), ts, env);
    cmd.maincmd := RmBlock;
    ghost var k := IdList(cmd.Value(), ts, 0, BlockIds, env).1;
    assert k == r.1;
    q := ParseIdList(cmd, line, p, 0, BlockIds, env, ts);
    if cmd.bidcount == 0 {
      cmd.maincmd := Undefined;
    }
    assert cmd.Value() == r.0;
  }

  /** `parse_ls_cmd` on a line whose tokens from the `j`-th on are left:
      returns where the line now starts. */
  method ParseLs(cmd: Command, line: array<char>, p: nat, ghost ts: seq<seq<char>>, ghost j: nat) returns (q: nat)
    requires cmd.Valid() && j <= |ts| && LineHolds(line, p, ts[j..])
    modifies cmd`maincmd, cmd`lflag, line
    ensures cmd.Valid()
    ensures var (c, k) := LsCmd(old(cmd.Value()), ts[j..]);
      cmd.Value() == c && LineHolds(line, q, ts[j + k..])
  {
    cmd.maincmd := Ls;
    var token;
    token, q := TakeToken(line, p, ts, j);
    if token == None {
      return;
    }
    assert ts[j..][0] == ts[j];
    var t := token.value;
    var flag := Matches("-l", line, t, ts[j]);
    if flag {
      cmd.lflag := true;
    }
  }

  /** `parse_cmd` on the string at `p`, which holds at least one token: the
      first token selects the routine that parses the rest. */
  method ParseCmd(cmd: Command, line: array<char>, p: nat, env: Env)
    requires cmd.Valid() && Terminated(line[..], p) && Str(line[..], p) != []
    modifies cmd, line
    ensures cmd.Valid()
    ensures cmd.Value() == ParseLine(old(cmd.Value()), Tokens(old(Str(line[..], p)), SPACE), env)
  {
    ghost var ts := Tokens(Str(line[..], p), SPACE);
    assert ts[0..] == ts;
    assert LineHolds(line, p, ts[0..]) by {
      assert Looked(0);
    }
    var token, q := TakeToken(line, p, ts, 0);
    var t := token.value;
    var m := Matches("add", line, t, ts[0]);
    if m {
      q := ParseAdd(cmd, line, q, env, ts, 1);
      return;
    }
    m := Matches("rm", line, t, ts[0]);
    if m {
      q := ParseRm(cmd, line, q, env, ts, 1);
      return;
    }
    m := Matches("ls", line, t, ts[0]);
    if m {
      q := ParseLs(cmd, line, q, ts, 1);
      return;
    }
    m := Matches("sync", line, t, ts[0]);
    if m {
      cmd.maincmd := Sync;
      return;
    }
    m := Matches("quit", line, t, ts[0]);
    if m {
      cmd.maincmd := Quit;
    }
  }
}
