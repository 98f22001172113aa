/** Concrete datagrams and key sequences, proved for every starting state.
    Datagrams are written as concatenations of short string literals: a
    single long literal would make the verifier unfold the splitting
    functions character by character. */
module Scenarios {

  import opened Wrappers
  import opened Text
  import opened Components
  import opened Protocol
  import opened Registry
  import opened Sync

  /** An entry with two fields is skipped and the next one still counts:
      `c:bad,1;x,2,3` decodes to a roster holding only `x` at (2, 3). */
  lemma MalformedEntrySkipped()
    ensures Decodable("c:" + "bad,1" + ";" + "x,2,3")
    ensures Decode("c:" + "bad,1" + ";" + "x,2,3") == Roster([PlayerInfo("x", Position(2, 3))])
  {
    var x := PlayerInfo("x", Position(2, 3));
    var entries := ["bad,1", "x,2,3"];
    TwoFieldEntry();
    XEntry();
    assert entries[1..] == ["x,2,3"];
    assert Join(entries, ';') == "bad,1" + ";" + "x,2,3";
    assert "c:" + Join(entries, ';') == "c:" + "bad,1" + ";" + "x,2,3";
    DecodeRosterText(entries);
    assert RosterEntries(entries) == [x];
  }

  /** `bad,1` has two fields: it is no player, and reading it does not panic. */
  lemma TwoFieldEntry()
    ensures ';' !in "bad,1" && ':' !in "bad,1"
    ensures EntryParses("bad,1") && GetPlayerInfo("bad,1") == None
  {
  }

  lemma XEntry()
    ensures ';' !in "x,2,3" && ':' !in "x,2,3"
    ensures EntryParses("x,2,3") && GetPlayerInfo("x,2,3") == Some(PlayerInfo("x", Position(2, 3)))
  {
    var x := PlayerInfo("x", Position(2, 3));
    EntryRoundTrip(x);
    assert EncodeEntry(x) == "x,2,3";
  }

  /** Applying `c:bad,1;x,2,3` adds exactly one entity and registers `x`
      there at (2, 3). */
  lemma MalformedEntryApplied(g: Game)
    requires Valid(g)
    ensures Decodable("c:" + "bad,1" + ";" + "x,2,3")
    ensures var r := ProcessServerData(g, "c:" + "bad,1" + ";" + "x,2,3");
      && |r.world| == |g.world| + 1
      && r.players.Keys == g.players.Keys + {"x"}
      && Live(r, "x") && PositionOf(r, "x") == Some(Position(2, 3))
  {
    var x := PlayerInfo("x", Position(2, 3));
    MalformedEntrySkipped();
    assert ProcessServerData(g, "c:" + "bad,1" + ";" + "x,2,3") == ApplyRoster(g, [x]);
    assert Ids([x]) == {"x"};
    RosterKeys(g, [x]);
    RosterLastPosition(g, [x], 0);
  }

  /** An unknown op is ignored: `z:whatever` changes nothing. */
  lemma UnknownOpIgnored(g: Game)
    requires Valid(g)
    ensures Decodable("z:" + "whatever")
    ensures ProcessServerData(g, "z:" + "whatever") == g
  {
    SplitDatagram("z", "whatever");
    assert "z:" + "whatever" == "z" + ":" + "whatever";
  }

  lemma AliceBobRoster()
    ensures Decodable("c:" + "alice,5,5" + ";" + "bob,2,9")
    ensures Decode("c:" + "alice,5,5" + ";" + "bob,2,9")
      == Roster([PlayerInfo("alice", Position(5, 5)), PlayerInfo("bob", Position(2, 9))])
  {
    var ps := [PlayerInfo("alice", Position(5, 5)), PlayerInfo("bob", Position(2, 9))];
    assert EncodeEntry(ps[0]) == "alice,5,5";
    assert EncodeEntry(ps[1]) == "bob,2,9";
    var es := EncodeEntries(ps);
    assert es == ["alice,5,5", "bob,2,9"];
    assert es[1..] == ["bob,2,9"];
    assert Join(es, ';') == "alice,5,5" + ";" + "bob,2,9";
    assert EncodeRoster(ps) == "c:" + "alice,5,5" + ";" + "bob,2,9";
    DecodeEncodeRoster(ps);
  }

  lemma AliceUpdate()
    ensures Decodable("u:" + "alice,6,5")
    ensures Decode("u:" + "alice,6,5") == Update(PlayerInfo("alice", Position(6, 5)))
  {
    var moved := PlayerInfo("alice", Position(6, 5));
    assert EncodeUpdate(moved) == "u:" + "alice,6,5";
    DecodeEncodeUpdate(moved);
  }

  /** `c:alice,5,5;bob,2,9` registers alice at (5, 5) and bob at (2, 9),
      each on a new entity. */
  lemma AliceBobRegistered(g: Game)
    requires Valid(g)
    ensures Decodable("c:" + "alice,5,5" + ";" + "bob,2,9")
    ensures var g1 := ProcessServerData(g, "c:" + "alice,5,5" + ";" + "bob,2,9");
      && "alice" in g1.players && g1.players["alice"] == |g.world|
      && "bob" in g1.players && g1.players["bob"] == |g.world| + 1
      && Live(g1, "alice") && PositionOf(g1, "alice") == Some(Position(5, 5))
      && Live(g1, "bob") && PositionOf(g1, "bob") == Some(Position(2, 9))
  {
    var ps := [PlayerInfo("alice", Position(5, 5)), PlayerInfo("bob", Position(2, 9))];
    AliceBobRoster();
    assert ProcessServerData(g, "c:" + "alice,5,5" + ";" + "bob,2,9") == ApplyRoster(g, ps);
    assert LastOccurrence(ps, 0) && LastOccurrence(ps, 1);
    RosterLastWins(g, ps, 0);
    RosterLastWins(g, ps, 1);
    RosterLastPosition(g, ps, 0);
    RosterLastPosition(g, ps, 1);
  }

  /** After the roster, `u:alice,6,5` moves alice to (6, 5), creates no
      entity and leaves bob where he was. */
  lemma RosterThenUpdate(g: Game)
    requires Valid(g)
    ensures Decodable("c:" + "alice,5,5" + ";" + "bob,2,9") && Decodable("u:" + "alice,6,5")
    ensures var g1 := ProcessServerData(g, "c:" + "alice,5,5" + ";" + "bob,2,9");
      var g2 := ProcessServerData(g1, "u:" + "alice,6,5");
      && Live(g2, "alice") && PositionOf(g2, "alice") == Some(Position(6, 5))
      && Live(g2, "bob") && PositionOf(g2, "bob") == Some(Position(2, 9))
      && |g2.world| == |g1.world|
  {
    AliceBobRegistered(g);
    AliceUpdate();
    var g1 := ProcessServerData(g, "c:" + "alice,5,5" + ";" + "bob,2,9");
    var moved := PlayerInfo("alice", Position(6, 5));
    var g2 := ProcessServerData(g1, "u:" + "alice,6,5");
    assert g2 == ApplyUpdate(g1, moved);
    assert g2.world[g1.players["bob"]] == g1.world[g1.players["bob"]];
  }

  /** Starting from the local player at the origin, four Left presses
      leave it at (-4, 0) and send exactly four `ml` commands. The key list
      is a parameter fixed by the precondition, for the same reason the
      datagrams are not single literals. */
  lemma FourLefts(background: seq<Entity>, keys: seq<Option<Key>>)
    requires keys == [Some(Left), Some(Left), Some(Left), Some(Left)]
    ensures Runs(Boot(background), keys)
    ensures var c := RunInputs(Boot(background), keys);
      && Live(c.game, Me)
      && PositionOf(c.game, Me) == Some(Position(-4, 0))
      && c.sent == ["ml", "ml", "ml", "ml"]
  {
    var c := Boot(background);
    assert keys == Presses(Left, 4);
    LeftPresses(c, 4);
    assert seq(4, _ => "ml") == ["ml", "ml", "ml", "ml"];
  }
}
