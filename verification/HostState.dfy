/** Model of the terminal host's remembered state and of the table of commands its clients may register. */
module HostState {
  import opened Results
  import opened Selection

  datatype Listing = Listing(id: string, runtime: string, terminalCommand: Option<string>, intents: seq<string>)

  /** A command and the client that claims it. */
  type Claim = (string, string)

  datatype Reason = BuiltIn | Contested(clientIds: seq<string>)

  datatype Rejection = Rejection(command: string, clientId: string, reason: Reason)

  datatype CommandTable = CommandTable(commands: map<string, string>, rejected: seq<Rejection>)

  // ---------------------------------------------------------------- claims

  /** A terminal client with a command, and the command is not the empty string. */
  predicate Claiming(l: Listing) {
    l.runtime == "terminal" && l.terminalCommand.Some? && l.terminalCommand.value != ""
  }

  function Claims(listings: seq<Listing>): seq<Claim> {
    if listings == [] then []
    else
      var last := listings[|listings| - 1];
      Claims(listings[..|listings| - 1]) + if Claiming(last) then [(last.terminalCommand.value, last.id)] else []
  }

  /** The clients that claim a command, in listing order. */
  function Claimants(listings: seq<Listing>, command: string): seq<string> {
    if listings == [] then []
    else
      var last := listings[|listings| - 1];
      Claimants(listings[..|listings| - 1], command)
      + if Claiming(last) && last.terminalCommand.value == command then [last.id] else []
  }

  ghost function ClaimersAt(listings: seq<Listing>, command: string): set<nat> {
    set k: nat | k < |listings| && listings[k].runtime == "terminal" && listings[k].terminalCommand == Some(command)
                 && command != ""
  }

  /** The claimants are the terminal clients listed with this command, every listing of them, in order. */
  lemma {:induction false} ClaimantsExactly(listings: seq<Listing>, command: string) returns (chosen: seq<Listing>)
    ensures Chosen(listings, ClaimersAt(listings, command), chosen)
    ensures |Claimants(listings, command)| == |chosen|
    ensures forall k | 0 <= k < |chosen| :: Claimants(listings, command)[k] == chosen[k].id
  {
    chosen := [];
    if listings != [] {
      var n := |listings| - 1;
      chosen := ClaimantsExactly(listings[..n], command);
      ChosenNext(listings[..n], ClaimersAt(listings[..n], command), ClaimersAt(listings, command), chosen, listings[n]);
      assert listings[..n] + [listings[n]] == listings;
      if n in ClaimersAt(listings, command) {
        chosen := chosen + [listings[n]];
      }
    }
  }

  lemma {:induction false} ClaimantsOfClaims(listings: seq<Listing>, command: string, id: string)
    ensures multiset(Claims(listings))[(command, id)] == multiset(Claimants(listings, command))[id]
  {
    if listings != [] {
      ClaimantsOfClaims(listings[..|listings| - 1], command, id);
    }
  }

  function ClaimOf(r: Rejection): Claim {
    (r.command, r.clientId)
  }

  function RejectedClaims(rejected: seq<Rejection>): seq<Claim> {
    if rejected == [] then []
    else RejectedClaims(rejected[..|rejected| - 1]) + [ClaimOf(rejected[|rejected| - 1])]
  }

  lemma RejectedOneMore(rejected: seq<Rejection>, r: Rejection)
    ensures RejectedClaims(rejected + [r]) == RejectedClaims(rejected) + [(r.command, r.clientId)]
  {
    assert (rejected + [r])[..|rejected|] == rejected;
  }

  // ----------------------------------------------------------------- table

  predicate Refused(listings: seq<Listing>, isBuiltIn: string -> bool, command: string) {
    isBuiltIn(command) || |Claimants(listings, command)| > 1
  }

  predicate Registered(commands: map<string, string>, command: string, id: string) {
    command in commands && commands[command] == id
  }

  /** Exactly the commands one listing claims, built-in ones apart, are registered. */
  ghost predicate RegistersExactly(listings: seq<Listing>, isBuiltIn: string -> bool, commands: map<string, string>) {
    forall c, id :: Registered(commands, c, id) <==> !isBuiltIn(c) && Claimants(listings, c) == [id]
  }

  /** How often a claim has to be rejected. */
  function Refusals(listings: seq<Listing>, isBuiltIn: string -> bool, claim: Claim): nat {
    if Refused(listings, isBuiltIn, claim.0) then multiset(Claimants(listings, claim.0))[claim.1] else 0
  }

  /** The other claims are rejected. */
  ghost predicate RejectsExactly(listings: seq<Listing>, isBuiltIn: string -> bool, rejected: seq<Rejection>) {
    forall claim :: multiset(RejectedClaims(rejected))[claim] == Refusals(listings, isBuiltIn, claim)
  }

  predicate ReasonsGiven(listings: seq<Listing>, isBuiltIn: string -> bool, rejected: seq<Rejection>) {
    forall r | r in rejected ::
        r.reason == if isBuiltIn(r.command) then BuiltIn else Contested(Claimants(listings, r.command))
  }

  ghost predicate IsTable(listings: seq<Listing>, isBuiltIn: string -> bool, table: CommandTable) {
    && RegistersExactly(listings, isBuiltIn, table.commands)
    && RejectsExactly(listings, isBuiltIn, table.rejected)
    && ReasonsGiven(listings, isBuiltIn, table.rejected)
  }

  /** No claim is lost or made up: each is registered or rejected, once. */
  lemma ClaimsAreSplit(listings: seq<Listing>, isBuiltIn: string -> bool, table: CommandTable, claim: Claim)
    requires IsTable(listings, isBuiltIn, table)
    ensures multiset(Claims(listings))[claim] ==
            multiset(RejectedClaims(table.rejected))[claim]
            + if Registered(table.commands, claim.0, claim.1) then 1 else 0
  {
    ClaimantsOfClaims(listings, claim.0, claim.1);
    assert claim == (claim.0, claim.1);
    var ids := Claimants(listings, claim.0);
    assert multiset(RejectedClaims(table.rejected))[claim] == Refusals(listings, isBuiltIn, claim);
    assert Registered(table.commands, claim.0, claim.1) <==> !isBuiltIn(claim.0) && ids == [claim.1];
    if |ids| == 1 {
      assert ids == [ids[0]];
    }
  }

  lemma SameClaimants(some: seq<Listing>, other: seq<Listing>, command: string)
    requires multiset(Claims(some)) == multiset(Claims(other))
    ensures multiset(Claimants(some, command)) == multiset(Claimants(other, command))
    ensures |Claimants(some, command)| == |Claimants(other, command)|
  {
    forall id ensures multiset(Claimants(some, command))[id] == multiset(Claimants(other, command))[id] {
      ClaimantsOfClaims(some, command, id);
      ClaimantsOfClaims(other, command, id);
    }
    assert multiset(Claimants(some, command)) == multiset(Claimants(other, command));
    assert |multiset(Claimants(some, command))| == |Claimants(some, command)|;
  }

  /** The order of the listings decides nothing. */
  lemma OrderDecidesNothing(
      some: seq<Listing>, other: seq<Listing>, isBuiltIn: string -> bool, table: CommandTable, table': CommandTable)
    requires multiset(Claims(some)) == multiset(Claims(other))
    requires IsTable(some, isBuiltIn, table) && IsTable(other, isBuiltIn, table')
    ensures table.commands == table'.commands
    ensures multiset(RejectedClaims(table.rejected)) == multiset(RejectedClaims(table'.rejected))
  {
    SameCommands(some, other, isBuiltIn, table.commands, table'.commands);
    SameRejections(some, other, isBuiltIn, table.rejected, table'.rejected);
  }

  lemma SameCommands(
      some: seq<Listing>, other: seq<Listing>, isBuiltIn: string -> bool, commands: map<string, string>,
      commands': map<string, string>)
    requires multiset(Claims(some)) == multiset(Claims(other))
    requires RegistersExactly(some, isBuiltIn, commands) && RegistersExactly(other, isBuiltIn, commands')
    ensures commands == commands'
  {
    forall c, id ensures Registered(commands, c, id) <==> Registered(commands', c, id) {
      SameClaimants(some, other, c);
      if Claimants(some, c) == [id] {
        OnlyElement(Claimants(some, c), Claimants(other, c), id);
      } else if Claimants(other, c) == [id] {
        OnlyElement(Claimants(other, c), Claimants(some, c), id);
      }
    }
    forall c | c in commands ensures c in commands' && commands'[c] == commands[c] {
      assert Registered(commands, c, commands[c]);
    }
    forall c | c in commands' ensures c in commands {
      assert Registered(commands', c, commands'[c]);
    }
  }

  lemma SameRejections(
      some: seq<Listing>, other: seq<Listing>, isBuiltIn: string -> bool, rejected: seq<Rejection>,
      rejected': seq<Rejection>)
    requires multiset(Claims(some)) == multiset(Claims(other))
    requires RejectsExactly(some, isBuiltIn, rejected) && RejectsExactly(other, isBuiltIn, rejected')
    ensures multiset(RejectedClaims(rejected)) == multiset(RejectedClaims(rejected'))
  {
    forall claim: Claim
      ensures multiset(RejectedClaims(rejected))[claim] == multiset(RejectedClaims(rejected'))[claim]
    {
      SameClaimants(some, other, claim.0);
    }
  }

  lemma OnlyElement(a: seq<string>, b: seq<string>, id: string)
    requires multiset(a) == multiset(b) && a == [id]
    ensures b == [id]
  {
    assert |multiset(b)| == 1;
    assert b[0] in multiset(b);
  }

  // ---------------------------------------------------------------- method

  /** `claims` groups the claims by command, and `order` lists the commands. */
  ghost predicate Grouped(listings: seq<Listing>, order: seq<string>, claims: map<string, seq<string>>) {
    ClaimsExact(listings, claims) && OrderExact(order, claims)
  }

  ghost predicate ClaimsExact(listings: seq<Listing>, claims: map<string, seq<string>>) {
    forall c :: (c in claims <==> Claimants(listings, c) != []) && (c in claims ==> claims[c] == Claimants(listings, c))
  }

  ghost predicate OrderExact(order: seq<string>, claims: map<string, seq<string>>) {
    && (forall c :: c in order <==> c in claims)
    && (forall i, j | 0 <= i < j < |order| :: order[i] != order[j])
  }

  function OwnClaim(l: Listing, command: string): seq<string> {
    if Claiming(l) && l.terminalCommand.value == command then [l.id] else []
  }

  lemma ClaimantsNext(front: seq<Listing>, l: Listing, command: string)
    ensures Claimants(front + [l], command) == Claimants(front, command) + OwnClaim(l, command)
  {
    assert (front + [l])[..|front|] == front;
  }

  lemma ClaimsNext(front: seq<Listing>, l: Listing, claims: map<string, seq<string>>)
    requires ClaimsExact(front, claims) && Claiming(l)
    ensures var c := l.terminalCommand.value;
            ClaimsExact(front + [l], claims[c := (if c in claims then claims[c] else []) + [l.id]])
  {
    forall c ensures Claimants(front + [l], c) == Claimants(front, c) + OwnClaim(l, c) {
      ClaimantsNext(front, l, c);
    }
  }

  lemma OrderNext(order: seq<string>, claims: map<string, seq<string>>, c: string, ids: seq<string>)
    requires OrderExact(order, claims)
    ensures OrderExact(if c in claims then order else order + [c], claims[c := ids])
  {
  }

  lemma GroupNext(front: seq<Listing>, l: Listing, order: seq<string>, claims: map<string, seq<string>>)
    requires Grouped(front, order, claims) && Claiming(l)
    ensures var c := l.terminalCommand.value;
            Grouped(front + [l], if c in claims then order else order + [c],
                    claims[c := (if c in claims then claims[c] else []) + [l.id]])
  {
    var c := l.terminalCommand.value;
    ClaimsNext(front, l, claims);
    OrderNext(order, claims, c, (if c in claims then claims[c] else []) + [l.id]);
  }

  lemma GroupSkips(front: seq<Listing>, l: Listing, order: seq<string>, claims: map<string, seq<string>>)
    requires Grouped(front, order, claims) && !Claiming(l)
    ensures Grouped(front + [l], order, claims)
  {
    forall c ensures Claimants(front + [l], c) == Claimants(front, c) {
      ClaimantsNext(front, l, c);
    }
  }

  method GroupClaims(listings: seq<Listing>) returns (order: seq<string>, claims: map<string, seq<string>>)
    ensures Grouped(listings, order, claims)
  {
    order, claims := [], map[];
    for i := 0 to |listings|
      invariant Grouped(listings[..i], order, claims)
    {
      var l := listings[i];
      assert listings[..i + 1] == listings[..i] + [l];
      if !Claiming(l) {
        GroupSkips(listings[..i], l, order, claims);
      } else {
        GroupNext(listings[..i], l, order, claims);
        var c := l.terminalCommand.value;
        if c !in claims {
          order := order + [c];
        }
        claims := claims[c := (if c in claims then claims[c] else []) + [l.id]];
      }
    }
    assert listings[..|listings|] == listings;
  }

  function Pairs(command: string, ids: seq<string>): seq<Claim> {
    if ids == [] then [] else Pairs(command, ids[..|ids| - 1]) + [(command, ids[|ids| - 1])]
  }

  lemma {:induction false} PairsCount(command: string, ids: seq<string>, claim: Claim)
    ensures multiset(Pairs(command, ids))[claim] == if claim.0 == command then multiset(ids)[claim.1] else 0
  {
    if ids != [] {
      PairsCount(command, ids[..|ids| - 1], claim);
      assert ids == ids[..|ids| - 1] + [ids[|ids| - 1]];
    }
  }

  method RejectAll(
      command: string, ids: seq<string>, reason: Reason, rejected: seq<Rejection>)
    returns (r: seq<Rejection>)
    ensures RejectedClaims(r) == RejectedClaims(rejected) + Pairs(command, ids)
    ensures forall x | x in r :: x in rejected || (x.command == command && x.reason == reason)
  {
    r := rejected;
    for k := 0 to |ids|
      invariant RejectedClaims(r) == RejectedClaims(rejected) + Pairs(command, ids[..k])
      invariant forall x | x in r :: x in rejected || (x.command == command && x.reason == reason)
    {
      RejectedOneMore(r, Rejection(command, ids[k], reason));
      assert ids[..k + 1][..k] == ids[..k];
      r := r + [Rejection(command, ids[k], reason)];
    }
    assert ids[..|ids|] == ids;
  }

  /** The claims on `decided` commands that had to be rejected are. */
  ghost predicate RejectedAmong(
      listings: seq<Listing>, isBuiltIn: string -> bool, rejected: seq<Rejection>, decided: seq<string>)
  {
    forall claim: Claim :: multiset(RejectedClaims(rejected))[claim] ==
      if claim.0 in decided then Refusals(listings, isBuiltIn, claim) else 0
  }

  ghost predicate RegisteredAmong(
      listings: seq<Listing>, isBuiltIn: string -> bool, commands: map<string, string>, decided: seq<string>)
  {
    forall c, id :: Registered(commands, c, id) <==> c in decided && !isBuiltIn(c) && Claimants(listings, c) == [id]
  }

  lemma DecideRejectedClaim(
      listings: seq<Listing>, isBuiltIn: string -> bool, rejected: seq<Rejection>, r: seq<Rejection>,
      decided: seq<string>, command: string, claim: Claim)
    requires RejectedAmong(listings, isBuiltIn, rejected, decided) && command !in decided
    requires Refused(listings, isBuiltIn, command)
    requires RejectedClaims(r) == RejectedClaims(rejected) + Pairs(command, Claimants(listings, command))
    ensures multiset(RejectedClaims(r))[claim] ==
            if claim.0 in decided + [command] then Refusals(listings, isBuiltIn, claim) else 0
  {
    PairsCount(command, Claimants(listings, command), claim);
  }

  lemma DecideRejected(
      listings: seq<Listing>, isBuiltIn: string -> bool, rejected: seq<Rejection>, r: seq<Rejection>,
      decided: seq<string>, command: string)
    requires RejectedAmong(listings, isBuiltIn, rejected, decided) && command !in decided
    requires Refused(listings, isBuiltIn, command)
    requires RejectedClaims(r) == RejectedClaims(rejected) + Pairs(command, Claimants(listings, command))
    ensures RejectedAmong(listings, isBuiltIn, r, decided + [command])
  {
    forall claim: Claim
      ensures multiset(RejectedClaims(r))[claim] ==
              if claim.0 in decided + [command] then Refusals(listings, isBuiltIn, claim) else 0
    {
      DecideRejectedClaim(listings, isBuiltIn, rejected, r, decided, command, claim);
    }
  }

  lemma DecideKept(
      listings: seq<Listing>, isBuiltIn: string -> bool, rejected: seq<Rejection>, decided: seq<string>,
      command: string)
    requires RejectedAmong(listings, isBuiltIn, rejected, decided) && command !in decided
    requires !Refused(listings, isBuiltIn, command)
    ensures RejectedAmong(listings, isBuiltIn, rejected, decided + [command])
  {
  }

  lemma RegisterNext(
      listings: seq<Listing>, isBuiltIn: string -> bool, commands: map<string, string>, decided: seq<string>,
      command: string)
    requires RegisteredAmong(listings, isBuiltIn, commands, decided) && command !in decided
    requires Claimants(listings, command) != []
    ensures RegisteredAmong(
      listings, isBuiltIn,
      if Refused(listings, isBuiltIn, command) then commands else commands[command := Claimants(listings, command)[0]],
      decided + [command])
  {
    var ids := Claimants(listings, command);
    assert !Registered(commands, command, ids[0]);
    assert |ids| == 1 ==> ids == [ids[0]];
  }

  lemma AllDecided(
      listings: seq<Listing>, isBuiltIn: string -> bool, commands: map<string, string>, rejected: seq<Rejection>,
      order: seq<string>, claims: map<string, seq<string>>)
    requires Grouped(listings, order, claims)
    requires RegisteredAmong(listings, isBuiltIn, commands, order)
               && RejectedAmong(listings, isBuiltIn, rejected, order)
    ensures RegistersExactly(listings, isBuiltIn, commands) && RejectsExactly(listings, isBuiltIn, rejected)
  {
    forall c, id ensures Registered(commands, c, id) <==> !isBuiltIn(c) && Claimants(listings, c) == [id] {
      assert c !in order ==> Claimants(listings, c) == [];
    }
    forall claim: Claim ensures multiset(RejectedClaims(rejected))[claim] == Refusals(listings, isBuiltIn, claim) {
      assert claim.0 !in order ==> Claimants(listings, claim.0) == [];
    }
  }

  method BuildCommandTable(listings: seq<Listing>, isBuiltIn: string -> bool) returns (table: CommandTable)
    ensures IsTable(listings, isBuiltIn, table)
  {
    var order, claims := GroupClaims(listings);
    var commands: map<string, string>, rejected: seq<Rejection> := map[], [];
    for k := 0 to |order|
      invariant RegisteredAmong(listings, isBuiltIn, commands, order[..k])
      invariant RejectedAmong(listings, isBuiltIn, rejected, order[..k])
      invariant ReasonsGiven(listings, isBuiltIn, rejected)
    {
      var c := order[k];
      var ids := claims[c];
      assert order[..k + 1] == order[..k] + [c];
      RegisterNext(listings, isBuiltIn, commands, order[..k], c);
      if isBuiltIn(c) || |ids| > 1 {
        var r := RejectAll(c, ids, if isBuiltIn(c) then BuiltIn else Contested(ids), rejected);
        DecideRejected(listings, isBuiltIn, rejected, r, order[..k], c);
        rejected := r;
      } else {
        DecideKept(listings, isBuiltIn, rejected, order[..k], c);
        commands := commands[c := ids[0]];
      }
    }
    assert order[..|order|] == order;
    AllDecided(listings, isBuiltIn, commands, rejected, order, claims);
    return CommandTable(commands, rejected);
  }

  // ----------------------------------------------------------------- state

  datatype RecordedShim = RecordedShim(clientId: string, command: string)

  datatype HostData = HostData(
    shims: map<string, RecordedShim>,
    develop: set<string>,
    commands: map<string, string>,
    clients: map<string, seq<string>>)

  /** The host's file.  Every update reads, changes and replaces it; one that fails leaves the old or the new data. */
  class TerminalHostState {
    var data: HostData
    /** How many writes have failed. */
    ghost var faults: nat

    constructor ()
      ensures data == HostData(map[], {}, map[], map[]) && faults == 0
    {
      data, faults := HostData(map[], {}, map[], map[]), 0;
    }

    method Write(changed: HostData) returns (ok: bool)
      modifies this
      ensures data == changed || (!ok && data == old(data))
      ensures faults == old(faults) + if ok then 0 else 1
    {
      var replaced: bool := *;
      ok := *;
      ok := ok && replaced;
      faults := faults + if ok then 0 else 1;
      if replaced {
        data := changed;
      }
    }

    method SetDevelopment(clientId: string, on: bool) returns (ok: bool)
      modifies this
      ensures ok ==> (forall c :: c in data.develop <==> if c == clientId then on else c in old(data.develop))
      ensures data == old(data)
              || (data == old(data).(develop := data.develop)
                  && forall c :: c in data.develop <==> if c == clientId then on else c in old(data.develop))
      ensures faults == old(faults) + if ok then 0 else 1
    {
      ok := Write(data.(develop := if on then data.develop + {clientId} else data.develop - {clientId}));
    }

    method SetClientIndex(commands: map<string, string>, clients: map<string, seq<string>>) returns (ok: bool)
      modifies this
      ensures data == old(data).(commands := commands, clients := clients) || (!ok && data == old(data))
      ensures faults == old(faults) + if ok then 0 else 1
    {
      ok := Write(data.(commands := commands, clients := clients));
    }

    method RecordShim(name: string, shim: RecordedShim) returns (ok: bool)
      modifies this
      ensures data == old(data).(shims := old(data.shims)[name := shim]) || (!ok && data == old(data))
      ensures faults == old(faults) + if ok then 0 else 1
    {
      ok := Write(data.(shims := data.shims[name := shim]));
    }

    method ForgetShim(name: string) returns (ok: bool)
      modifies this
      ensures data == old(data).(shims := old(data.shims) - {name}) || (!ok && data == old(data))
      ensures faults == old(faults) + if ok then 0 else 1
    {
      ok := Write(data.(shims := data.shims - {name}));
    }
  }
}
