/** Parsing goes by blocks of lines, and composes (internal/monitor/lsof.go). */
module LsofComposition {
  import opened Basics
  import opened Text
  import opened Session
  import opened Lsof
  import opened LsofBlocks

  /** No process line reads as process zero. */
  predicate NoZeroPid(t: Parser, lines: seq<string>) {
    forall i :: 0 <= i < |lines| && Field(lines[i], 'p') ==> t.atoi(lines[i][1..]) != Some(0)
  }

  /** Starting with a process line and without process zero, every process line cuts: the parse
      is the concatenation of the blocks' own results. */
  lemma {:induction false} GroupsAreBlocks(t: Parser, lines: seq<string>)
    requires StartsBlock(lines) && NoZeroPid(t, lines)
    ensures Groups(t, lines) == Blocks(lines)
    ensures Pending(t, Open(t, lines))
  {
    var n := |lines| - 1;
    var before, line := lines[..n], lines[n];
    assert lines == before + [line];
    if n == 0 {
      SingleLine(t, line);
    } else {
      GroupsAreBlocks(t, before);
      Reassemble(t, before, line);
      PendingStep(t, before, line);
    }
  }

  function Flatten(blocks: seq<seq<string>>): seq<string> {
    if blocks == [] then [] else Flatten(blocks[..|blocks| - 1]) + blocks[|blocks| - 1]
  }

  /** A block begins with a process line and has no other. */
  ghost predicate IsBlock(block: seq<string>) {
    block != [] && Field(block[0], 'p') && forall i :: 1 <= i < |block| ==> !Field(block[i], 'p')
  }

  /** The blocks are the lines, cut before every process line and nowhere else. */
  lemma {:induction false} BlocksCut(lines: seq<string>)
    requires StartsBlock(lines)
    ensures Flatten(Blocks(lines)) == lines
    ensures Blocks(lines) != [] && forall k :: 0 <= k < |Blocks(lines)| ==> IsBlock(Blocks(lines)[k])
  {
    var n := |lines| - 1;
    var before, line := lines[..n], lines[n];
    assert lines == before + [line];
    if n > 0 {
      BlocksCut(before);
      FlattenStep(Blocks(before), line);
    } else {
      assert Blocks(before) == [];
      FlattenPush([], [line]);
      assert Flatten([]) == [];
    }
  }

  lemma FlattenPush(blocks: seq<seq<string>>, block: seq<string>)
    ensures Flatten(blocks + [block]) == Flatten(blocks) + block
  {
    assert (blocks + [block])[..|blocks|] == blocks;
  }

  lemma FlattenStep(blocks: seq<seq<string>>, line: string)
    requires blocks != []
    ensures Flatten(blocks + [[line]]) == Flatten(blocks) + [line]
    ensures var k := |blocks| - 1; Flatten(blocks[..k] + [blocks[k] + [line]]) == Flatten(blocks) + [line]
  {
    var k := |blocks| - 1;
    FlattenPush(blocks, [line]);
    FlattenPush(blocks[..k], blocks[k] + [line]);
    MoveBracket(Flatten(blocks[..k]), blocks[k], [line]);
  }

  lemma MoveBracket(a: seq<string>, b: seq<string>, c: seq<string>)
    ensures a + (b + c) == (a + b) + c
  {
  }

  /** Parsing composes at every block start exactly when the first part is an error already, ends
      in a pending record, or leaves an inert one behind. */
  lemma ParseComposesIff(t: Parser, ports: set<int>, a: seq<string>, p: string, n: string)
    requires Witnesses(t, ports, p, n)
    ensures Composes(t, ports, a) <==>
            || Parsed(t, ports, a).Err?
            || Pending(t, Open(t, a))
            || Inert(t, ports, Meaning(t, Open(t, a)))
  {
    var r := Meaning(t, Open(t, a));
    if Parsed(t, ports, a).Err? || Pending(t, Open(t, a)) || Inert(t, ports, r) {
      forall b | StartsBlock(b) ensures Parsed(t, ports, a + b) == Then(Parsed(t, ports, a), Parsed(t, ports, b)) {
        if Pending(t, Open(t, a)) {
          ParseComposes(t, ports, a, b);
        } else if Parsed(t, ports, a).Err? {
          ErrorComposes(t, ports, a, b);
        } else {
          InertComposes(t, ports, a, b);
        }
      }
    } else if IsDaemon(r.command) {
      DaemonTells(t, ports, a, r, p, n);
    } else if r.established {
      StateTells(t, ports, a, r, p, n);
    } else if r.user != "" {
      UserTells(t, ports, a, r, p, n);
    } else {
      var i :| 0 <= i < |r.names| && !Idle(t, ports, r.names[i]);
      NameTells(t, ports, a, r, p, i);
    }
  }

  /** Why the pending record matters: a record with process zero leaks its command into the next
      block, which on its own lists nothing. */
  lemma ZeroPidLeaks(t: Parser, zero: string, command: string, p: string, n: string, s: string)
    requires Field(zero, 'p') && t.atoi(zero[1..]) == Some(0) && Field(command, 'c') && command[1..] == "sshd"
    requires Field(p, 'p') && t.atoi(p[1..]) == Some(1)
    requires Field(n, 'n') && ParseName(t, n[1..]).Some?
    requires Field(s, 'T') && IsEstablished(s[1..])
    ensures var a, b := [zero, command], [p] + [n, s];
            && Parsed(t, {}, a) == Ok([]) && Parsed(t, {}, b) == Ok([])
            && Parsed(t, {}, a + b) ==
               Ok([Listed(Record(1, "sshd", "", [n[1..]], true, true), ParseName(t, n[1..]).value)])
  {
    ZeroBlock(t, zero, command);
    NothingYet(t);
    BlockAfter(t, [], "", p, n, s);
    assert [] + ([p] + [n, s]) == [p] + [n, s];
    BlockAfter(t, [zero, command], "sshd", p, n, s);
    SingleName(t, Record(1, "sshd", "", [n[1..]], true, true), n[1..]);
  }
}
