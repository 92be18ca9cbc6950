/**
 Model of the shims in the user's command directory: linked, unlinked, and brought in line with the listed clients.
 */
module ClientShims {
  import opened Results
  import opened Strings
  import opened HostState

  const MARKER := "# vibestudio-client-shim"
  const SHEBANG := "#!/bin/sh"

  predicate IsShimChar(c: char) {
    'a' <= c <= 'z' || '0' <= c <= '9' || c == '-'
  }

  /** `[a-z][a-z0-9-]{0,62}` */
  predicate ShimName(name: string) {
    && 1 <= |name| <= 63 && 'a' <= name[0] <= 'z'
    && forall c | c in name :: IsShimChar(c)
  }

  /** A letter, then up to 62 letters, digits and dashes. */
  lemma ShimNameExactly(name: string)
    ensures ShimName(name) <==>
            exists first, rest :: name == [first] + rest && 'a' <= first <= 'z' && |rest| <= 62
                                  && forall c | c in rest :: IsShimChar(c)
  {
    if ShimName(name) {
      assert name == [name[0]] + name[1..];
    }
  }

  /** The registered command of the client, or `open` with its id. */
  function Invocation(listing: Listing, commands: map<string, string>): string {
    if listing.terminalCommand.Some? && listing.terminalCommand.value != ""
       && Registered(commands, listing.terminalCommand.value, listing.id)
    then listing.terminalCommand.value
    else "open " + listing.id
  }

  function Script(invocation: string): string {
    SHEBANG + ['\n'] + (MARKER + ['\n'] + ("exec vibestudio " + invocation + " \"$@\"\n"))
  }

  function SecondLine(text: string): Option<string> {
    var end := IndexOf(text, '\n');
    if end.None? then None
    else
      var rest := text[end.value + 1..];
      var next := IndexOf(rest, '\n');
      Some(if next.None? then rest else rest[..next.value])
  }

  predicate IsOurs(text: string) {
    SecondLine(text) == Some(MARKER)
  }

  /** Every shim this host writes is recognised as one. */
  lemma ScriptIsOurs(invocation: string)
    ensures IsOurs(Script(invocation))
  {
    var exec := "exec vibestudio " + invocation + " \"$@\"\n";
    var rest := MARKER + ['\n'] + exec;
    assert forall k | 0 <= k < |SHEBANG| :: SHEBANG[k] != '\n';
    assert forall k | 0 <= k < |MARKER| :: MARKER[k] != '\n';
    IndexOfFirst(SHEBANG, rest, '\n');
    assert Script(invocation) == SHEBANG + ['\n'] + rest;
    assert Script(invocation)[|SHEBANG| + 1..] == rest;
    IndexOfFirst(MARKER, exec, '\n');
    assert rest[..|MARKER|] == MARKER;
  }

  /** The three lines of a shim; shims for different invocations differ. */
  lemma ScriptExactly(invocation: string, other: string)
    ensures Script(invocation)
            == "#!/bin/sh" + "\n" + "# vibestudio-client-shim" + "\n" + "exec vibestudio " + invocation + " \"$@\"\n"
    ensures Script(other) == Script(invocation) ==> other == invocation
  {
    Regroup(SHEBANG, ['\n'], MARKER, ['\n'], "exec vibestudio ", invocation, " \"$@\"\n");
    Regroup(SHEBANG, ['\n'], MARKER, ['\n'], "exec vibestudio ", other, " \"$@\"\n");
    var head := SHEBANG + ['\n'] + MARKER + ['\n'] + "exec vibestudio ";
    Between(head, invocation, " \"$@\"\n");
    Between(head, other, " \"$@\"\n");
  }

  lemma Between(head: string, middle: string, tail: string)
    ensures |head + middle + tail| == |head| + |middle| + |tail|
    ensures (head + middle + tail)[|head|..|head| + |middle|] == middle
  {
  }

  lemma Regroup(a: string, b: string, c: string, d: string, e: string, f: string, g: string)
    ensures a + b + (c + d + (e + f + g)) == a + b + c + d + e + f + g
  {
    Associate(a + b, c + d, e + f + g);
    Associate(a + b, c, d);
    Associate(a + b + c + d, e + f, g);
    Associate(a + b + c + d, e, f);
  }

  lemma Associate(a: string, b: string, c: string)
    ensures a + (b + c) == a + b + c
  {
  }

  /**
   A shim of a listed client runs the client's command exactly if the client
   is a terminal client that claims it alone and it is not built in; any other
   shim opens the client by its id.
   */
  lemma InvocationExactly(
      listing: Listing, listings: seq<Listing>, isBuiltIn: string -> bool, table: CommandTable, command: string)
    requires IsTable(listings, isBuiltIn, table)
    ensures listing.terminalCommand == Some(command) && command != "" && !isBuiltIn(command)
            && Claimants(listings, command) == [listing.id]
            ==> Invocation(listing, table.commands) == command
    ensures listing.terminalCommand == None || listing.terminalCommand == Some("")
            || isBuiltIn(listing.terminalCommand.value)
            || Claimants(listings, listing.terminalCommand.value) != [listing.id]
            ==> Invocation(listing, table.commands) == "open " + listing.id
  {
    assert RegistersExactly(listings, isBuiltIn, table.commands);
  }

  // ------------------------------------------------------------- directory

  type Files = map<string, string>

  function At(files: Files, name: string): Option<string> {
    if name in files then Some(files[name]) else None
  }

  class ShimDirectory {
    var files: Files
    /** How many calls have failed. */
    ghost var faults: nat

    constructor (files: Files)
      ensures this.files == files && faults == 0
    {
      this.files, faults := files, 0;
    }

    /** Replaces a file atomically; a failure leaves the old or the new one. */
    method Write(name: string, text: string) returns (ok: bool)
      modifies this
      ensures files == old(files)[name := text] || (!ok && files == old(files))
      ensures faults == old(faults) + if ok then 0 else 1
    {
      var replaced: bool := *;
      ok := *;
      ok := ok && replaced;
      faults := faults + if ok then 0 else 1;
      if replaced {
        files := files[name := text];
      }
    }

    /** Whether the file is there and bears the marker, or the failure to read it. */
    method Bears(name: string) returns (ours: Option<bool>)
      modifies this`faults
      ensures ours.Some? ==> (ours.value <==> name in files && IsOurs(files[name]))
      ensures faults == old(faults) + if ours.Some? then 0 else 1
    {
      var readable: bool := *;
      if name in files && !readable {
        faults := faults + 1;
        return None;
      }
      return Some(name in files && IsOurs(files[name]));
    }

    method Remove(name: string) returns (ok: bool)
      requires name in files
      modifies this
      ensures files == if ok then old(files) - {name} else old(files)
      ensures faults == old(faults) + if ok then 0 else 1
    {
      ok := *;
      faults := faults + if ok then 0 else 1;
      if ok {
        files := files - {name};
      }
    }
  }

  // -------------------------------------------------------- link and unlink

  datatype Refusal = UnusableName | BuiltInName | ForeignFile | NotRecorded | Fault

  /** Nothing but our own file under `name` changed. */
  ghost predicate OnlyOurs(before: Files, after: Files, name: string) {
    && (forall n | n != name :: (n in before <==> n in after) && (n in before ==> after[n] == before[n]))
    && (name in before && !IsOurs(before[name]) ==> name in after && after[name] == before[name])
  }

  method LinkClientShim(
      state: TerminalHostState, directory: ShimDirectory, isBuiltIn: string -> bool,
      name: string, listing: Listing, commands: map<string, string>)
    returns (r: Result<string, Refusal>)
    modifies state, directory
    ensures OnlyOurs(old(directory.files), directory.files, name)
    ensures r.Ok? ==>
              && ShimName(name) && !isBuiltIn(name)
              && (name in old(directory.files) ==> IsOurs(old(directory.files)[name]))
              && directory.files == old(directory.files)[name := Script(Invocation(listing, commands))]
              && state.data == old(state.data).(
                   shims := old(state.data.shims)[name := RecordedShim(listing.id, Invocation(listing, commands))])
    ensures r.Err? && r.error != Fault ==> directory.files == old(directory.files) && state.data == old(state.data)
    ensures r.Ok? ==> name != "" && '/' !in name && '.' !in name
    ensures r == Err(UnusableName) <==> !ShimName(name)
    ensures r == Err(BuiltInName) <==> ShimName(name) && isBuiltIn(name)
    ensures r == Err(ForeignFile) ==> name in directory.files && !IsOurs(directory.files[name])
    ensures r != Err(NotRecorded)
    ensures state.faults + directory.faults >= old(state.faults + directory.faults)
    ensures r == Err(Fault) <==> state.faults + directory.faults > old(state.faults + directory.faults)
    ensures r == Err(ForeignFile) ==> ShimName(name) && !isBuiltIn(name)
  {
    if !ShimName(name) {
      return Err(UnusableName);
    }
    if isBuiltIn(name) {
      return Err(BuiltInName);
    }
    if name in directory.files {
      var ours := directory.Bears(name);
      if ours.None? {
        return Err(Fault);
      }
      if !ours.value {
        return Err(ForeignFile);
      }
    }
    var invocation := Invocation(listing, commands);
    var ok := directory.Write(name, Script(invocation));
    if !ok {
      return Err(Fault);
    }
    ok := state.RecordShim(name, RecordedShim(listing.id, invocation));
    return if ok then Ok(name) else Err(Fault);
  }

  /** The result says whether a file was removed. */
  method UnlinkClientShim(
      state: TerminalHostState, directory: ShimDirectory, name: string)
    returns (r: Result<bool, Refusal>)
    modifies state, directory
    ensures OnlyOurs(old(directory.files), directory.files, name)
    ensures r.Ok? ==>
              && name in old(state.data.shims)
              && (r.value <==> name in old(directory.files) && IsOurs(old(directory.files)[name]))
              && directory.files == (if r.value then old(directory.files) - {name} else old(directory.files))
              && state.data == old(state.data).(shims := old(state.data.shims) - {name})
    ensures r == Err(NotRecorded) <==> name !in old(state.data.shims)
    ensures r == Err(NotRecorded) ==> directory.files == old(directory.files) && state.data == old(state.data)
    ensures r.Err? ==> r.error == NotRecorded || r.error == Fault
    ensures state.faults + directory.faults >= old(state.faults + directory.faults)
    ensures r == Err(Fault) <==> state.faults + directory.faults > old(state.faults + directory.faults)
  {
    if name !in state.data.shims {
      return Err(NotRecorded);
    }
    var removed := false;
    var ours := directory.Bears(name);
    if ours.None? {
      return Err(Fault);
    }
    if ours.value {
      var gone := directory.Remove(name);
      if !gone {
        return Err(Fault);
      }
      removed := true;
    }
    var ok := state.ForgetShim(name);
    return if ok then Ok(removed) else Err(Fault);
  }

  // ------------------------------------------------------------------ sync

  /** The first listing of a client. */
  function Find(listings: seq<Listing>, id: string): (r: Option<Listing>)
    ensures r.Some? ==> r.value.id == id && r.value in listings
    ensures r.None? ==> forall l | l in listings :: l.id != id
  {
    if listings == [] then None else if listings[0].id == id then Some(listings[0]) else Find(listings[1..], id)
  }

  /** The terminal clients' intents; a later listing of the same client wins. */
  function ClientIndex(listings: seq<Listing>): map<string, seq<string>> {
    if listings == [] then map[]
    else
      var front, last := ClientIndex(listings[..|listings| - 1]), listings[|listings| - 1];
      if last.runtime == "terminal" then front[last.id := last.intents] else front
  }

  /** Listing `i` is the last of this client as a terminal client. */
  ghost predicate LastTerminal(listings: seq<Listing>, i: nat, id: string) {
    && i < |listings| && listings[i].runtime == "terminal" && listings[i].id == id
    && forall j | i < j < |listings| && listings[j].id == id :: listings[j].runtime != "terminal"
  }

  /** The index holds the terminal clients and no others, each with the intents it is listed with last. */
  lemma {:induction false} IndexExactly(listings: seq<Listing>, id: string)
    ensures id in ClientIndex(listings) <==>
            exists l | l in listings :: l.runtime == "terminal" && l.id == id
    ensures forall i: nat | LastTerminal(listings, i, id) ::
              id in ClientIndex(listings) && ClientIndex(listings)[id] == listings[i].intents
  {
    if listings != [] {
      var n := |listings| - 1;
      IndexExactly(listings[..n], id);
      assert listings == listings[..n] + [listings[n]];
      forall i: nat | LastTerminal(listings, i, id) && i < n ensures LastTerminal(listings[..n], i, id) {
      }
    }
  }

  /** The listing found is the first of that client. */
  lemma {:induction false} FindsFirst(listings: seq<Listing>, id: string, i: nat)
    requires i < |listings| && listings[i].id == id && forall j | 0 <= j < i :: listings[j].id != id
    ensures Find(listings, id) == Some(listings[i])
  {
    if i > 0 {
      FindsFirst(listings[1..], id, i - 1);
    }
  }

  /** What sync makes of one recorded shim. */
  function SyncedShim(shim: RecordedShim, listings: seq<Listing>, commands: map<string, string>): Option<RecordedShim> {
    var listing := Find(listings, shim.clientId);
    if listing.None? then None else Some(RecordedShim(shim.clientId, Invocation(listing.value, commands)))
  }

  /** The records of the names in `done` brought in line, the others as they were. */
  function SyncedShims(
      shims: map<string, RecordedShim>, done: set<string>, listings: seq<Listing>, commands: map<string, string>)
    : map<string, RecordedShim>
  {
    map n | n in shims && (n in done ==> SyncedShim(shims[n], listings, commands).Some?) ::
      if n in done then SyncedShim(shims[n], listings, commands).value else shims[n]
  }

  /** What sync leaves in one file: none where it removes it. */
  function SyncedFile(
      files: Files, shims: map<string, RecordedShim>, name: string, listings: seq<Listing>,
      commands: map<string, string>)
    : Option<string>
  {
    var was := At(files, name);
    if name !in shims then was
    else
      var shim := SyncedShim(shims[name], listings, commands);
      if shim.None? then if was.Some? && IsOurs(was.value) then None else was
      else if shim.value.command != shims[name].command then Some(Script(shim.value.command))
      else was
  }

  ghost predicate FilesSynced(
      files: Files, after: Files, shims: map<string, RecordedShim>, done: set<string>, listings: seq<Listing>,
      commands: map<string, string>)
  {
    forall n :: At(after, n) ==
                if n in done then SyncedFile(files, shims, n, listings, commands)
                else At(files, n)
  }

  /** After a sync the recorded shims are those whose client is listed, each with its current invocation. */
  lemma RecordsAreCurrent(
      shims: map<string, RecordedShim>, listings: seq<Listing>, commands: map<string, string>, name: string)
    ensures var after := SyncedShims(shims, shims.Keys, listings, commands);
            (name in after <==> name in shims && exists l | l in listings :: l.id == shims[name].clientId)
            && (name in after ==>
                  after[name].clientId == shims[name].clientId
                  && after[name].command == Invocation(Find(listings, shims[name].clientId).value, commands))
  {
  }

  /**
   After a sync a file is as it was, but for the recorded shims: the shim of a
   client no longer listed is gone if it was ours, and one whose client is
   listed with another invocation runs that.
   */
  lemma FilesAreCurrent(
      files: Files, after: Files, shims: map<string, RecordedShim>, listings: seq<Listing>,
      commands: map<string, string>, name: string)
    requires FilesSynced(files, after, shims, shims.Keys, listings, commands)
    ensures name !in shims ==> At(after, name) == At(files, name)
    ensures name in shims && (forall l | l in listings :: l.id != shims[name].clientId) ==>
              At(after, name) == if name in files && IsOurs(files[name]) then None else At(files, name)
    ensures forall i: nat | i < |listings| && name in shims && listings[i].id == shims[name].clientId
                              && (forall j | 0 <= j < i :: listings[j].id != shims[name].clientId) ::
              At(after, name) == if Invocation(listings[i], commands) == shims[name].command then At(files, name)
                                 else Some(Script(Invocation(listings[i], commands)))
  {
    assert At(after, name) ==
           if name in shims.Keys then SyncedFile(files, shims, name, listings, commands) else At(files, name);
    forall i: nat | i < |listings| && name in shims && listings[i].id == shims[name].clientId
                      && (forall j | 0 <= j < i :: listings[j].id != shims[name].clientId)
      ensures Find(listings, shims[name].clientId) == Some(listings[i])
    {
      FindsFirst(listings, shims[name].clientId, i);
    }
  }

  /** Synced records are what a sync makes of them. */
  lemma RecordsAreSettled(shims: map<string, RecordedShim>, listings: seq<Listing>, commands: map<string, string>)
    ensures var again := SyncedShims(shims, shims.Keys, listings, commands);
            && (forall n | n in again :: SyncedShim(again[n], listings, commands) == Some(again[n]))
            && SyncedShims(again, again.Keys, listings, commands) == again
  {
  }

  /** A second sync with the same listings has nothing to do. */
  lemma SyncIsIdempotent(
      files: Files, after: Files, later: Files, shims: map<string, RecordedShim>, listings: seq<Listing>,
      commands: map<string, string>)
    requires FilesSynced(files, after, shims, shims.Keys, listings, commands)
    requires var again := SyncedShims(shims, shims.Keys, listings, commands);
             FilesSynced(after, later, again, again.Keys, listings, commands)
    ensures var again := SyncedShims(shims, shims.Keys, listings, commands);
            SyncedShims(again, again.Keys, listings, commands) == again && later == after
  {
    RecordsAreSettled(shims, listings, commands);
    var again := SyncedShims(shims, shims.Keys, listings, commands);
    forall n ensures At(later, n) == At(after, n) {
      assert n in again ==> SyncedFile(after, again, n, listings, commands) == At(after, n);
    }
    forall n ensures (n in later <==> n in after) && (n in after ==> later[n] == after[n]) {
      assert At(later, n) == At(after, n);
    }
  }

  /**
   Sync replaces a file it did not write exactly where a recorded shim's
   client is still listed and its invocation has changed: the rewrite does not
   look for the marker, which link and unlink do.
   */
  lemma ForeignReplacedExactly(
      files: Files, after: Files, shims: map<string, RecordedShim>, listings: seq<Listing>,
      commands: map<string, string>, name: string)
    requires FilesSynced(files, after, shims, shims.Keys, listings, commands)
    requires name in files && !IsOurs(files[name])
    ensures name in after
    ensures after[name] != files[name] <==>
            name in shims && SyncedShim(shims[name], listings, commands).Some?
            && SyncedShim(shims[name], listings, commands).value.command != shims[name].command
  {
    assert At(after, name) ==
           if name in shims then SyncedFile(files, shims, name, listings, commands) else Some(files[name]);
    if name in shims && SyncedShim(shims[name], listings, commands).Some? {
      ScriptIsOurs(SyncedShim(shims[name], listings, commands).value.command);
    }
  }

  /** Such a case: the user put a script of their own where a shim was, and the client's command changed since. */
  lemma ForeignMayBeReplaced()
    returns (files: Files, after: Files, shims: map<string, RecordedShim>, listings: seq<Listing>)
    ensures FilesSynced(files, after, shims, shims.Keys, listings, map[])
    ensures "edit" in files && !IsOurs(files["edit"])
    ensures "edit" in after && after["edit"] != files["edit"]
  {
    files := map["edit" := "mine"];
    shims := map["edit" := RecordedShim("c1", "edit")];
    var client := Listing("c1", "terminal", None, []);
    listings := [client];
    after := map["edit" := Script("open c1")];
    assert Find(listings, "c1") == Some(client) && Invocation(client, map[]) == "open c1";
    assert "open c1"[0] != "edit"[0];
    assert forall k | 0 <= k < |"mine"| :: "mine"[k] != '\n';
    ScriptIsOurs("open c1");
  }

  lemma SyncShimNext(
      shims: map<string, RecordedShim>, done: set<string>, name: string, listings: seq<Listing>,
      commands: map<string, string>)
    requires name in shims && name !in done
    ensures var before := SyncedShims(shims, done, listings, commands);
            var shim := SyncedShim(shims[name], listings, commands);
            SyncedShims(shims, done + {name}, listings, commands) ==
            if shim.None? then before - {name}
            else if shim.value.command != shims[name].command then before[name := shim.value]
            else before
    ensures name in SyncedShims(shims, done, listings, commands)
  {
  }

  lemma SyncFileNext(
      files: Files, before: Files, after: Files, shims: map<string, RecordedShim>, done: set<string>, name: string,
      listings: seq<Listing>, commands: map<string, string>)
    requires FilesSynced(files, before, shims, done, listings, commands) && name !in done
    requires forall n | n != name :: (n in before <==> n in after) && (n in before ==> after[n] == before[n])
    requires At(after, name) == SyncedFile(before, shims, name, listings, commands)
    ensures FilesSynced(files, after, shims, done + {name}, listings, commands)
  {
    forall n ensures At(after, n) ==
                     if n in done + {name} then SyncedFile(files, shims, n, listings, commands)
                     else At(files, n)
    {
      assert At(before, n) ==
             if n in done then SyncedFile(files, shims, n, listings, commands)
             else At(files, n);
    }
  }

  /** One recorded shim: unlinked, rewritten or left. */
  method SyncShim(
      state: TerminalHostState, directory: ShimDirectory, name: string, shim: RecordedShim,
      listings: seq<Listing>, commands: map<string, string>)
    returns (ok: bool, unlinked: bool)
    requires name in state.data.shims && state.data.shims[name] == shim
    modifies state, directory
    ensures forall n | n != name ::
              (n in directory.files <==> n in old(directory.files))
                  && (n in directory.files ==> directory.files[n] == old(directory.files)[n])
    ensures ok ==> (unlinked <==> Find(listings, shim.clientId).None?)
    ensures ok ==>
              var next := SyncedShim(shim, listings, commands);
              state.data == old(state.data).(
                shims := if next.None? then old(state.data.shims) - {name}
                         else if next.value.command != shim.command then old(state.data.shims)[name := next.value]
                         else old(state.data.shims))
    ensures ok ==>
              At(directory.files, name)
              == SyncedFile(old(directory.files), old(state.data.shims), name, listings, commands)
    ensures state.faults + directory.faults >= old(state.faults + directory.faults)
              && (ok <==> state.faults + directory.faults == old(state.faults + directory.faults))
  {
    var listing := Find(listings, shim.clientId);
    if listing.None? {
      var r := UnlinkClientShim(state, directory, name);
      return r.Ok?, true;
    }
    var invocation := Invocation(listing.value, commands);
    ok := true;
    if invocation != shim.command {
      ok := directory.Write(name, Script(invocation));
      if ok {
        ok := state.RecordShim(name, RecordedShim(listing.value.id, invocation));
      }
    }
    unlinked := false;
  }

  method SyncClientIndex(
      state: TerminalHostState, directory: ShimDirectory, isBuiltIn: string -> bool, listings: seq<Listing>)
    returns (ok: bool, table: CommandTable, removed: seq<string>)
    modifies state, directory
    ensures IsTable(listings, isBuiltIn, table)
    ensures forall n | n !in old(state.data.shims) ::
              (n in directory.files <==> n in old(directory.files))
                  && (n in directory.files ==> directory.files[n] == old(directory.files)[n])
    ensures ok ==>
              state.data == old(state.data).(
                commands := table.commands, clients := ClientIndex(listings),
                shims := SyncedShims(old(state.data.shims), old(state.data.shims).Keys, listings, table.commands))
    ensures ok ==>
              FilesSynced(old(directory.files), directory.files, old(state.data.shims), old(state.data.shims).Keys,
                  listings, table.commands)
    ensures ok ==>
              forall n :: n in removed <==>
                            n in old(state.data.shims) && Find(listings, old(state.data.shims)[n].clientId).None?
    ensures ok <==> state.faults + directory.faults == old(state.faults + directory.faults)
  {
    table := BuildCommandTable(listings, isBuiltIn);
    removed := [];
    ok := state.SetClientIndex(table.commands, ClientIndex(listings));
    if !ok {
      return;
    }
    var shims, rest := state.data.shims, state.data.shims.Keys;
    ghost var files, data, done: set<string> := directory.files, state.data, {};
    assert SyncedShims(shims, done, listings, table.commands) == shims;
    while rest != {}
      invariant state.faults + directory.faults == old(state.faults + directory.faults)
      invariant rest + done == shims.Keys && rest !! done
      invariant state.data == data.(shims := SyncedShims(shims, done, listings, table.commands))
      invariant FilesSynced(files, directory.files, shims, done, listings, table.commands)
      invariant forall n :: n in removed <==> n in done && Find(listings, shims[n].clientId).None?
      decreases rest
    {
      var name :| name in rest;
      ghost var before := directory.files;
      SyncShimNext(shims, done, name, listings, table.commands);
      UnsyncedFiles(files, before, shims, done, listings, table.commands);
      var unlinked;
      ok, unlinked := SyncShim(state, directory, name, shims[name], listings, table.commands);
      if !ok {
        return;
      }
      SyncFileNext(files, before, directory.files, shims, done, name, listings, table.commands);
      if unlinked {
        removed := removed + [name];
      }
      rest, done := rest - {name}, done + {name};
    }
    UnsyncedFiles(files, directory.files, shims, done, listings, table.commands);
  }

  /** Names that are not recorded keep their files. */
  lemma UnsyncedFiles(
      files: Files, after: Files, shims: map<string, RecordedShim>, done: set<string>, listings: seq<Listing>,
      commands: map<string, string>)
    requires FilesSynced(files, after, shims, done, listings, commands)
    ensures forall n | n !in done || n !in shims ::
              (n in after <==> n in files) && (n in after ==> after[n] == files[n])
  {
    forall n | n !in done || n !in shims ensures (n in after <==> n in files) && (n in after ==> after[n] == files[n]) {
      assert At(after, n) == At(files, n);
    }
  }

  lemma EmptyOrMember(names: seq<string>)
    ensures names == [] || exists n :: n in names
  {
    assert names != [] ==> names[0] in names;
  }

  /** Syncing again with the same listings changes neither files nor records. */
  method SyncTwice(
      state: TerminalHostState, directory: ShimDirectory, isBuiltIn: string -> bool, listings: seq<Listing>)
    returns (first: bool, second: bool, ghost data: HostData, ghost files: Files, again: seq<string>)
    modifies state, directory
    ensures first && second ==> state.data == data && directory.files == files && again == []
    ensures first && second ==>
              data.shims.Keys == set n | n in old(state.data.shims)
                  && Find(listings, old(state.data.shims)[n].clientId).Some?
  {
    var table, removed;
    first, table, removed := SyncClientIndex(state, directory, isBuiltIn, listings);
    data, files := state.data, directory.files;
    ghost var shims, files0 := old(state.data.shims), old(directory.files);
    var table';
    second, table', again := SyncClientIndex(state, directory, isBuiltIn, listings);
    if first && second {
      SameCommands(listings, listings, isBuiltIn, table.commands, table'.commands);
      SyncIsIdempotent(files0, files, directory.files, shims, listings, table.commands);
      RecordsAreSettled(shims, listings, table.commands);
      EmptyOrMember(again);
    }
  }
}
