/** The server-to-client wire format: a datagram `<op>:<payload>`, where a
    roster (`c`) payload is a `;`-separated list of `<id>,<x>,<y>` entries
    and an update (`u`) payload is a single such entry. Decoding follows the
    client's own splitting exactly. Encoders for the same grammar are
    included as the decoder's inverse. */
module Protocol {

  import opened Wrappers
  import opened Text
  import opened Components

  /** A player identifier and position read from one entry. */
  datatype PlayerInfo = PlayerInfo(id: string, pos: Position)

  /** What one datagram asks of the client. `Ignored` covers both an unknown
      op and an update whose entry does not have three fields. */
  datatype ServerEvent = Roster(players: seq<PlayerInfo>) | Update(player: PlayerInfo) | Ignored

  /** `s.parse::<i32>()` succeeds. */
  predicate IsI32Text(s: string)
  {
    IsIntText(s) && InI32(IntValue(s))
  }

  /** Reading `entry` does not panic: when it has three comma-separated
      fields, the second and third are `i32` literals. */
  predicate EntryParses(entry: string)
  {
    var f := Split(entry, ',');
    |f| == 3 ==> IsI32Text(f[1]) && IsI32Text(f[2])
  }

  /** `get_player_info`: an entry is a player exactly when it has three
      comma-separated fields; the identifier is the text before the first
      comma and the coordinates are the parsed second and third fields. */
  function GetPlayerInfo(entry: string): (r: Option<PlayerInfo>)
    requires EntryParses(entry)
    ensures r.Some? <==> |Split(entry, ',')| == 3
    ensures r.Some? ==> ',' !in r.value.id
    ensures r.Some? ==> |r.value.id| < |entry| && entry[..|r.value.id|] == r.value.id
    ensures r.Some? ==> entry[|r.value.id|] == ','
    ensures r.Some? ==> r.value.pos.x as int == IntValue(Split(entry, ',')[1])
    ensures r.Some? ==> r.value.pos.y as int == IntValue(Split(entry, ',')[2])
  {
    var f := Split(entry, ',');
    if |f| == 3 then
      SplitFirstIsPrefix(entry, ',');
      SplitCount(entry, ',');
      Count2Longer(entry, f[0]);
      Some(PlayerInfo(f[0], Position(IntValue(f[1]) as i32, IntValue(f[2]) as i32)))
    else
      None
  }

  /** An entry is a player exactly when it holds exactly two commas. */
  lemma PlayerIffTwoCommas(entry: string)
    requires EntryParses(entry)
    ensures GetPlayerInfo(entry).Some? <==> Count(entry, ',') == 2
  {
    SplitCount(entry, ',');
  }

  /** A prefix without the separator is shorter than a text holding one. */
  lemma Count2Longer(entry: string, prefix: string)
    requires Count(entry, ',') == 2
    requires ',' !in prefix
    requires |prefix| <= |entry| && entry[..|prefix|] == prefix
    ensures |prefix| < |entry|
  {
    if |prefix| == |entry| {
      assert entry == prefix;
      CountAbsent(prefix, ',');
    }
  }

  lemma {:induction false} PiecesOfPresent(s: string, c: char)
    requires c in s
    ensures |Split(s, c)| > 1
    decreases |s|
  {
    if s[0] != c {
      assert c in s[1..];
      PiecesOfPresent(s[1..], c);
    }
  }

  /** The text before the first `:`. */
  function Op(data: string): string
  {
    Split(data, ':')[0]
  }

  /** The text between the first and the second `:`; anything after a
      second `:` is not read. */
  function Payload(data: string): string
    requires ':' in data
  {
    PiecesOfPresent(data, ':');
    Split(data, ':')[1]
  }

  /** Where op and payload sit in the datagram: the op is the `:`-free text
      up to the first `:`, and the payload is the `:`-free text that follows
      it, up to the next `:` or the end. */
  lemma OpPayloadPlacement(data: string)
    requires ':' in data
    ensures var op := Op(data);
      |op| < |data| && data[..|op|] == op && data[|op|] == ':' && ':' !in op
    ensures var op := Op(data); var payload := Payload(data);
      |op| + 1 + |payload| <= |data| && data[|op| + 1..|op| + 1 + |payload|] == payload && ':' !in payload
    ensures var op := Op(data); var payload := Payload(data);
      |op| + 1 + |payload| == |data| || data[|op| + 1 + |payload|] == ':'
  {
    var r := Split(data, ':');
    PiecesOfPresent(data, ':');
    JoinSplit(data, ':');
    var rest := Join(r[1..], ':');
    assert data == r[0] + [':'] + rest;
    assert r[1..][0] == r[1];
    if |r| > 2 {
      assert rest == r[1] + [':'] + Join(r[2..], ':') by {
        assert r[1..][1..] == r[2..];
      }
    }
    assert data[|r[0]| + 1..] == rest;
  }

  /** `process_server_data` does not panic on `data`: it holds a `:`, and
      the entries it would read parse. */
  predicate Decodable(data: string)
  {
    && ':' in data
    && (Op(data) == "c" ==> AllEntriesParse(Split(Payload(data), ';')))
    && (Op(data) == "u" ==> EntryParses(Payload(data)))
  }

  predicate AllEntriesParse(entries: seq<string>)
  {
    forall i :: 0 <= i < |entries| ==> EntryParses(entries[i])
  }

  /** The players of a roster: well-formed entries in order, malformed
      ones (wrong field count) dropped without stopping the rest. */
  function RosterEntries(entries: seq<string>): (r: seq<PlayerInfo>)
    requires AllEntriesParse(entries)
    ensures |r| <= |entries|
    decreases |entries|
  {
    if |entries| == 0 then []
    else
      var rest := RosterEntries(entries[1..]);
      match GetPlayerInfo(entries[0])
      case Some(p) => [p] + rest
      case None => rest
  }

  /** A player is in the roster exactly when some entry reads as it. */
  lemma {:induction false} RosterEntriesMembers(entries: seq<string>, p: PlayerInfo)
    requires AllEntriesParse(entries)
    ensures p in RosterEntries(entries) <==>
      exists i :: 0 <= i < |entries| && GetPlayerInfo(entries[i]) == Some(p)
    decreases |entries|
  {
    if |entries| > 0 {
      var rest := entries[1..];
      RosterEntriesMembers(rest, p);
      if exists i :: 0 <= i < |rest| && GetPlayerInfo(rest[i]) == Some(p) {
        var i :| 0 <= i < |rest| && GetPlayerInfo(rest[i]) == Some(p);
        assert GetPlayerInfo(entries[i + 1]) == Some(p);
      }
      if exists i :: 0 <= i < |entries| && GetPlayerInfo(entries[i]) == Some(p) {
        var i :| 0 <= i < |entries| && GetPlayerInfo(entries[i]) == Some(p);
        if i > 0 {
          assert GetPlayerInfo(rest[i - 1]) == Some(p);
        }
      }
    }
  }

  /** A roster is read entry by entry: the players of a concatenation are
      the players of each part, in order. */
  lemma {:induction false} RosterEntriesAppend(a: seq<string>, b: seq<string>)
    requires AllEntriesParse(a) && AllEntriesParse(b)
    ensures AllEntriesParse(a + b)
    ensures RosterEntries(a + b) == RosterEntries(a) + RosterEntries(b)
    decreases |a|
  {
    if |a| == 0 {
      assert a + b == b;
    } else {
      assert (a + b)[1..] == a[1..] + b;
      RosterEntriesAppend(a[1..], b);
    }
  }

  /** Reading a datagram as the client does, op first. */
  function Decode(data: string): (r: ServerEvent)
    requires Decodable(data)
    ensures r.Roster? <==> Op(data) == "c"
    ensures r.Update? <==> Op(data) == "u" && |Split(Payload(data), ',')| == 3
    ensures r.Update? ==> GetPlayerInfo(Payload(data)) == Some(r.player)
    ensures r.Roster? ==> r.players == RosterEntries(Split(Payload(data), ';'))
  {
    var op := Op(data);
    var info := Payload(data);
    if op == "c" then
      Roster(RosterEntries(Split(info, ';')))
    else if op == "u" then
      match GetPlayerInfo(info)
      case Some(p) => Update(p)
      case None => Ignored
    else
      Ignored
  }

  // ---------------------------------------------------------------
  // Encoders for the same grammar

  /** Identifiers are not escaped, so they must avoid the three separators. */
  predicate CleanId(id: string)
  {
    ',' !in id && ';' !in id && ':' !in id
  }

  function EncodeEntry(p: PlayerInfo): string
  {
    p.id + "," + FormatInt(p.pos.x as int) + "," + FormatInt(p.pos.y as int)
  }

  /** One entry per player, in order. */
  function EncodeEntries(ps: seq<PlayerInfo>): (r: seq<string>)
    ensures |r| == |ps|
  {
    if |ps| == 0 then [] else [EncodeEntry(ps[0])] + EncodeEntries(ps[1..])
  }

  function EncodeRoster(ps: seq<PlayerInfo>): string
  {
    "c:" + Join(EncodeEntries(ps), ';')
  }

  function EncodeUpdate(p: PlayerInfo): string
  {
    "u:" + EncodeEntry(p)
  }

  /** An encoded entry is read back as the same player. */
  lemma EntryRoundTrip(p: PlayerInfo)
    requires ',' !in p.id
    ensures ';' !in p.id && ':' !in p.id ==> ';' !in EncodeEntry(p) && ':' !in EncodeEntry(p)
    ensures EntryParses(EncodeEntry(p))
    ensures GetPlayerInfo(EncodeEntry(p)) == Some(p)
  {
    var fx := FormatInt(p.pos.x as int);
    var fy := FormatInt(p.pos.y as int);
    ParseFormatInt(p.pos.x as int);
    ParseFormatInt(p.pos.y as int);
    var e := EncodeEntry(p);
    assert e == p.id + [','] + (fx + [','] + fy);
    SplitCons(p.id, ',', fx + [','] + fy);
    SplitCons(fx, ',', fy);
    SplitNoSep(fy, ',');
    assert Split(e, ',') == [p.id, fx, fy];
  }

  /** A separator absent from every part and distinct from the joining
      separator is absent from the join. */
  lemma {:induction false} JoinAvoids(parts: seq<string>, sep: char, c: char)
    requires c != sep
    requires forall i :: 0 <= i < |parts| ==> c !in parts[i]
    ensures c !in Join(parts, sep)
    decreases |parts|
  {
    if |parts| > 1 {
      JoinAvoids(parts[1..], sep, c);
    }
  }

  /** Splitting `op + ":" + payload` with a `:`-free op and payload. */
  lemma SplitDatagram(op: string, payload: string)
    requires ':' !in op && ':' !in payload
    ensures ':' in op + ":" + payload
    ensures Op(op + ":" + payload) == op
    ensures Payload(op + ":" + payload) == payload
  {
    var d := op + ":" + payload;
    assert d == op + [':'] + payload;
    assert d[|op|] == ':';
    SplitCons(op, ':', payload);
    SplitNoSep(payload, ':');
  }

  /** The entries written for players with clean identifiers hold no `;`
      or `:` and are read back as the same players, in order. */
  lemma {:induction false} RosterEntriesOfEncoded(ps: seq<PlayerInfo>)
    requires forall i :: 0 <= i < |ps| ==> CleanId(ps[i].id)
    ensures forall i :: 0 <= i < |ps| ==> ';' !in EncodeEntries(ps)[i] && ':' !in EncodeEntries(ps)[i]
    ensures AllEntriesParse(EncodeEntries(ps))
    ensures RosterEntries(EncodeEntries(ps)) == ps
    decreases |ps|
  {
    var es := EncodeEntries(ps);
    if |ps| > 0 {
      var e0 := EncodeEntry(ps[0]);
      var tail := EncodeEntries(ps[1..]);
      assert AllEntriesParse(tail) && RosterEntries(tail) == ps[1..] by {
        RosterEntriesOfEncoded(ps[1..]);
      }
      assert EntryParses(e0) && GetPlayerInfo(e0) == Some(ps[0]) by {
        EntryRoundTrip(ps[0]);
      }
      RosterEntriesCons(e0, tail);
      assert [ps[0]] + ps[1..] == ps;
      forall i | 0 <= i < |ps| ensures ';' !in es[i] && ':' !in es[i] {
        if i == 0 {
          EntryRoundTrip(ps[0]);
        } else {
          RosterEntriesOfEncoded(ps[1..]);
          assert es[i] == tail[i - 1];
        }
      }
    }
  }

  /** The players of `[e] + rest`: those of `e`, then those of `rest`. */
  lemma RosterEntriesCons(e: string, rest: seq<string>)
    requires EntryParses(e) && AllEntriesParse(rest)
    ensures AllEntriesParse([e] + rest)
    ensures RosterEntries([e] + rest) == (match GetPlayerInfo(e) case Some(p) => [p] case None => []) + RosterEntries(rest)
  {
    var es := [e] + rest;
    assert es[0] == e && es[1..] == rest;
  }

  /** An encoded update decodes to the same update. */
  lemma DecodeEncodeUpdate(p: PlayerInfo)
    requires CleanId(p.id)
    ensures Decodable(EncodeUpdate(p))
    ensures Decode(EncodeUpdate(p)) == Update(p)
  {
    EntryRoundTrip(p);
    SplitDatagram("u", EncodeEntry(p));
    assert EncodeUpdate(p) == "u" + ":" + EncodeEntry(p);
  }

  /** A `c:` datagram with a `:`-free payload is the roster of the
      payload's `;`-separated entries. */
  lemma DecodeRosterPayload(payload: string)
    requires ':' !in payload
    requires AllEntriesParse(Split(payload, ';'))
    ensures Decodable("c:" + payload)
    ensures Decode("c:" + payload) == Roster(RosterEntries(Split(payload, ';')))
  {
    var d := "c:" + payload;
    assert d == "c" + ":" + payload;
    SplitDatagram("c", payload);
  }

  /** A roster datagram built from `;`- and `:`-free entries decodes to the
      players of those entries, in order. */
  lemma DecodeRosterText(es: seq<string>)
    requires |es| > 0
    requires forall i :: 0 <= i < |es| ==> ';' !in es[i] && ':' !in es[i]
    requires AllEntriesParse(es)
    ensures Decodable("c:" + Join(es, ';'))
    ensures Decode("c:" + Join(es, ';')) == Roster(RosterEntries(es))
  {
    JoinAvoids(es, ';', ':');
    SplitJoin(es, ';');
    DecodeRosterPayload(Join(es, ';'));
  }

  /** An encoded roster decodes to the same players in the same order,
      including the empty roster. */
  lemma DecodeEncodeRoster(ps: seq<PlayerInfo>)
    requires forall i :: 0 <= i < |ps| ==> CleanId(ps[i].id)
    ensures Decodable(EncodeRoster(ps))
    ensures Decode(EncodeRoster(ps)) == Roster(ps)
  {
    var es := EncodeEntries(ps);
    RosterEntriesOfEncoded(ps);
    if |ps| == 0 {
      var payload := Join(es, ';');
      assert payload == "";
      SplitDatagram("c", payload);
      assert EncodeRoster(ps) == "c" + ":" + payload;
      assert Split(payload, ';') == [""];
      assert Split("", ',') == [""];
    } else {
      DecodeRosterText(es);
    }
  }
}
