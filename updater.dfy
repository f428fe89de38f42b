/** The whitelist updater daemon (`AtlassianIPUpdater`, postfix/ip_updater.py)
    as a state machine over what it leaves behind: the whitelist file, its
    backups, the persisted state record, the postfix control commands it ran
    and the severity of the last notification it sent. Everything external
    (the HTTP exchange, `cp`, the file write, `postfix status|start|reload`,
    the state-file write, clocks) arrives as one Cycle of observed outcomes. */
module Updater {
  import opened Common
  import opened StringOrder
  import opened Feed
  import opened Whitelist

  /** The severities `update_ips` passes to `send_slack_notification`. */
  datatype Severity = Success | Warning | Error

  /** The `postfix` subcommands `reload_postfix` may run. */
  datatype Command = Status | Start | Reload

  /** The JSON state file `{content_hash, last_update, ip_count}`; a missing
      or unreadable file loads as the empty record. */
  datatype StateRecord = StateRecord(contentHash: Option<string>, lastUpdate: Option<string>, ipCount: Option<int>)

  const EmptyState := StateRecord(None, None, None)

  /** The outcomes of the external steps of one `update_ips` call, in the
      order the code meets them. `backupTime` is `int(time.time())`, the suffix
      of the backup file name; `generatedAt` the header timestamp; `now` the
      `last_update` timestamp; `copyOk`, `writeOk`, `saveOk` whether the `cp`,
      the whitelist write and the state-file write succeeded. */
  datatype Cycle = Cycle(
    response: FetchOutcome,
    generatedAt: string,
    backupTime: nat,
    copyOk: bool,
    writeOk: bool,
    status: Outcome,
    start: Outcome,
    reload: Outcome,
    now: string,
    saveOk: bool)

  /** `reload_postfix` gets as far as `postfix reload`: Postfix was running, or
      `postfix status` failed and `postfix start` then succeeded. */
  predicate ReloadAttempted(status: Outcome, start: Outcome) {
    status.Succeeded() || (status.Completed? && start.Succeeded())
  }

  /** The commands `reload_postfix` runs, in order. */
  function ReloadCommands(status: Outcome, start: Outcome): seq<Command> {
    [Status]
    + (if status.Completed? && status.returncode != 0 then [Start] else [])
    + (if ReloadAttempted(status, start) then [Reload] else [])
  }

  /** No header text and no CIDR of a selected record of the fetched feed
      contains a newline, so the written file has exactly the intended line
      structure. */
  predicate SingleLineInputs(sourceUrl: string, c: Cycle) {
    && SingleLine(sourceUrl)
    && SingleLine(c.generatedAt)
    && (c.response.Response? && c.response.body.Object? && c.response.body.items.Some? ==>
          var items := c.response.body.items.value;
          forall i :: 0 <= i < |items| && Selects(items[i]) ==> SingleLine(items[i].cidr.value))
  }

  class IpUpdater {
    /** `ATLASSIAN_IP_JSON_URL`, echoed in the whitelist header. */
    const sourceUrl: string
    /** `/etc/postfix/clients.cidr`; None when the file does not exist. */
    var whitelist: Option<string>
    /** `clients.cidr.backup.<unix time>` files, by their time suffix. */
    var backups: map<nat, string>
    /** `/tmp/atlassian_state.json`. */
    var state: StateRecord
    /** Severity of the last notification `update_ips` sent. */
    var lastSeverity: Option<Severity>
    /** Every `postfix` control command run so far, oldest first. */
    var commands: seq<Command>

    constructor (sourceUrl: string, whitelist: Option<string>, backups: map<nat, string>, state: StateRecord)
      ensures this.sourceUrl == sourceUrl && this.whitelist == whitelist
      ensures this.backups == backups && this.state == state
      ensures lastSeverity == None && commands == []
    {
      this.sourceUrl := sourceUrl;
      this.whitelist := whitelist;
      this.backups := backups;
      this.state := state;
      lastSeverity := None;
      commands := [];
    }

    /** The persisted `ip_count` is the number of `<cidr> OK` lines of the
        whitelist on disk. */
    predicate StateMatchesWhitelist()
      reads this
    {
      && whitelist.Some?
      && state.ipCount.Some?
      && var ranges := ParseWhitelist(whitelist.value);
         ranges.Some? && |ranges.value| == state.ipCount.value
    }

    /** `reload_postfix`: a chain of early returns over the exit codes of
        `postfix status`, `postfix start` and `postfix reload`; any of them
        raising ends the chain with False. Returns the result and the commands
        actually run. */
    method ReloadPostfix(status: Outcome, start: Outcome, reload: Outcome) returns (ok: bool, ran: seq<Command>)
      ensures ran == ReloadCommands(status, start)
      ensures Start in ran <==> status.Completed? && status.returncode != 0
      ensures Reload in ran <==> ReloadAttempted(status, start)
      ensures ok <==> Reload in ran && reload.Succeeded()
      ensures status.Completed? && status.returncode != 0 && !start.Succeeded() ==> !ok && Reload !in ran
    {
      ran := [Status];
      if status.Raised? {
        return false, ran;
      }
      if status.returncode != 0 {
        ran := ran + [Start];
        if !start.Succeeded() {
          return false, ran;
        }
      }
      ran := ran + [Reload];
      ok := reload.Succeeded();
    }

    /** `update_cidr_file`: back up the current file if there is one (a failed
        `cp` aborts), then overwrite it with the rendered ranges. */
    method UpdateCidrFile(ranges: seq<string>, generatedAt: string, backupTime: nat, copyOk: bool, writeOk: bool)
      returns (ok: bool)
      modifies this`whitelist, this`backups
      ensures ok <==> (old(whitelist).None? || copyOk) && writeOk
      ensures backups == if old(whitelist).Some? && copyOk
                         then old(backups)[backupTime := old(whitelist).value]
                         else old(backups)
      ensures old(whitelist).Some? && copyOk ==> backupTime in backups && backups[backupTime] == old(whitelist).value
      ensures whitelist == if ok then Some(Render(generatedAt, sourceUrl, ranges)) else old(whitelist)
    {
      if whitelist.Some? {
        if !copyOk {
          return false;
        }
        backups := backups[backupTime := whitelist.value];
      }
      var content := Render(generatedAt, sourceUrl, ranges);
      if !writeOk {
        return false;
      }
      whitelist := Some(content);
      ok := true;
    }

    /** The second half of `update_ips`, once there are ranges to write:
        update the file (on failure an error notification and nothing else),
        then reload Postfix, persist the new state whatever the reload gave,
        and report success or a warning. Returns the reload's result. */
    method ApplyRanges(ips: seq<string>, hash: string, c: Cycle) returns (ok: bool)
      modifies this
      ensures backups == (if old(whitelist).Some? && c.copyOk
                          then old(backups)[c.backupTime := old(whitelist).value]
                          else old(backups))
      ensures !((old(whitelist).None? || c.copyOk) && c.writeOk) ==>
                && !ok
                && whitelist == old(whitelist) && state == old(state)
                && commands == old(commands) && lastSeverity == Some(Error)
      ensures (old(whitelist).None? || c.copyOk) && c.writeOk ==>
                && whitelist == Some(Render(c.generatedAt, sourceUrl, ips))
                && commands == old(commands) + ReloadCommands(c.status, c.start)
                && (ok <==> ReloadAttempted(c.status, c.start) && c.reload.Succeeded())
                && state == (if c.saveOk then StateRecord(Some(hash), Some(c.now), Some(|ips|)) else old(state))
                && lastSeverity == Some(if ok then Success else Warning)
      ensures old(StateMatchesWhitelist()) && c.saveOk && SingleLine(sourceUrl) && SingleLine(c.generatedAt)
              && (forall k :: 0 <= k < |ips| ==> SingleLine(ips[k])) ==>
                StateMatchesWhitelist()
    {
      var written := UpdateCidrFile(ips, c.generatedAt, c.backupTime, c.copyOk, c.writeOk);
      if !written {
        lastSeverity := Some(Error);
        return false;
      }
      var reloaded, ran := ReloadPostfix(c.status, c.start, c.reload);
      commands := commands + ran;
      if c.saveOk {
        var saved := state.(contentHash := Some(hash));
        saved := saved.(lastUpdate := Some(c.now));
        saved := saved.(ipCount := Some(|ips|));
        state := saved;
        if SingleLine(sourceUrl) && SingleLine(c.generatedAt) && forall k :: 0 <= k < |ips| ==> SingleLine(ips[k]) {
          WhitelistRoundTrip(c.generatedAt, sourceUrl, ips);
        }
      }
      lastSeverity := Some(if reloaded then Success else Warning);
      ok := reloaded;
    }

    /** `update_ips`: one reconciliation pass. */
    method UpdateIps(c: Cycle) returns (ok: bool)
      modifies this
      // The fetch reports nothing to do: nothing at all changes.
      ensures var data := FetchAtlassianData(old(state.contentHash), c.response);
              data.None? ==>
                && ok
                && whitelist == old(whitelist) && backups == old(backups) && state == old(state)
                && commands == old(commands) && lastSeverity == old(lastSeverity)
      // No selected record: error notification, files, state and Postfix untouched.
      ensures var data := FetchAtlassianData(old(state.contentHash), c.response);
              data.Some? && EmailEgressCidrs(data.value.items) == [] ==>
                && !ok
                && whitelist == old(whitelist) && backups == old(backups) && state == old(state)
                && commands == old(commands) && lastSeverity == Some(Error)
      // Some ranges: the file update is attempted, with a backup of the old file.
      ensures var data := FetchAtlassianData(old(state.contentHash), c.response);
              data.Some? && EmailEgressCidrs(data.value.items) != [] ==>
                && backups == (if old(whitelist).Some? && c.copyOk
                               then old(backups)[c.backupTime := old(whitelist).value]
                               else old(backups))
      // The file update failed: error notification, file, state and Postfix untouched.
      ensures var data := FetchAtlassianData(old(state.contentHash), c.response);
              data.Some? && EmailEgressCidrs(data.value.items) != [] &&
              !((old(whitelist).None? || c.copyOk) && c.writeOk) ==>
                && !ok
                && whitelist == old(whitelist) && state == old(state)
                && commands == old(commands) && lastSeverity == Some(Error)
      // The file was written: reload, persist the new state whatever the reload
      // gave, report success or a warning, return the reload's result.
      ensures var data := FetchAtlassianData(old(state.contentHash), c.response);
              data.Some? && EmailEgressCidrs(data.value.items) != [] &&
              (old(whitelist).None? || c.copyOk) && c.writeOk ==>
                var ips := SortStrings(EmailEgressCidrs(data.value.items));
                && whitelist == Some(Render(c.generatedAt, sourceUrl, ips))
                && commands == old(commands) + ReloadCommands(c.status, c.start)
                && (ok <==> ReloadAttempted(c.status, c.start) && c.reload.Succeeded())
                && state == (if c.saveOk
                             then StateRecord(Some(data.value.contentHash), Some(c.now), Some(|ips|))
                             else old(state))
                && lastSeverity == Some(if ok then Success else Warning)
      // Once the new hash is saved, the same body is "no change" next time.
      ensures var data := FetchAtlassianData(old(state.contentHash), c.response);
              data.Some? && data.value.contentHash != "" && EmailEgressCidrs(data.value.items) != [] &&
              (old(whitelist).None? || c.copyOk) && c.writeOk && c.saveOk ==>
                forall o: FetchOutcome :: o.Response? && o.bodyHash == data.value.contentHash ==>
                  FetchAtlassianData(state.contentHash, o).None?
      // The persisted count keeps matching the file, as long as the state file
      // can be written and no input contains a newline.
      ensures old(StateMatchesWhitelist()) && c.saveOk && SingleLineInputs(sourceUrl, c) ==>
                StateMatchesWhitelist()
    {
      var lastHash := state.contentHash;
      var data := FetchAtlassianData(lastHash, c.response);
      if data.None? {
        return true;
      }
      var emailIps := ExtractEmailIps(data.value.items);
      if emailIps == [] {
        lastSeverity := Some(Error);
        return false;
      }
      if SingleLineInputs(sourceUrl, c) {
        forall k | 0 <= k < |emailIps| ensures SingleLine(emailIps[k]) {
          assert emailIps[k] in multiset(EmailEgressCidrs(data.value.items));
          EmailEgressCidrsMembers(data.value.items, emailIps[k]);
        }
      }
      ok := ApplyRanges(emailIps, data.value.contentHash, c);
    }
  }
}
