/**
 * The logger session: the connection settings the user types in, the read
 * button, the status line, the calls the logger makes on the PLC client and
 * the CSV files it writes. The PLC client is an oracle: what it answers
 * (whether the connection is up, which bytes a block holds) arrives as method
 * parameters, and each call the logger makes on it is recorded in `calls`.
 */
module PlcLogger {
  import opened BlockDecoder
  import opened CsvExport

  /** A call made on the PLC client; `GetConnected` records the answer the client gave. */
  datatype ClientCall =
    | Connect(address: string, rack: int, slot: int)
    | GetConnected(answer: bool)
    | DbGet(db: int)
    | DbRead(db: int, start: int, size: int)

  /** What the status line shows. */
  datatype Status = NotConnected | ConnectedTo(address: string) | ConnectFailed

  /** The errors the logger reports in a message box. */
  datatype Error = MissingAddress | NotConnectedToPlc

  datatype Outcome = Done | Failed(error: Error)

  /** Call `k` of the trace respects the logger's guards: no connect with an empty
      address, no block query unless the client has just reported a connection,
      and a block read only right after the size query of the same block. */
  predicate CallGuarded(calls: seq<ClientCall>, k: nat)
    requires k < |calls|
  {
    match calls[k]
    case Connect(address, _, _) => address != ""
    case GetConnected(_) => true
    case DbGet(_) => k > 0 && calls[k - 1] == GetConnected(true)
    case DbRead(db, start, _) => k > 0 && calls[k - 1] == DbGet(db) && start == 0
  }

  /** Every call of the trace respects the guards: each connect has a non-empty
      address, each block query directly follows `get_connected()` answering true,
      and each block read, from offset 0, directly follows the query of its block. */
  ghost predicate Guarded(calls: seq<ClientCall>): (g: bool)
    ensures g ==> forall k :: 0 <= k < |calls| && calls[k].Connect? ==> calls[k].address != ""
    ensures g ==> forall k :: 0 <= k < |calls| && calls[k].DbGet? ==> k > 0 && calls[k - 1] == GetConnected(true)
    ensures g ==> forall k :: 0 <= k < |calls| && calls[k].DbRead? ==>
                    k > 0 && calls[k - 1] == DbGet(calls[k].db) && calls[k].start == 0
  {
    var g := forall k :: 0 <= k < |calls| ==> CallGuarded(calls, k);
    // The same fact, quantified so that it also fires on `calls[k]` as the clauses above need.
    assert g ==> forall k :: 0 <= k < |calls| && !calls[k].GetConnected? ==> CallGuarded(calls, k);
    g
  }

  /** Some connect was answered by the client reporting the connection up. */
  ghost predicate ConnectConfirmed(calls: seq<ClientCall>)
  {
    exists k :: 0 <= k < |calls| - 1 && calls[k].Connect? && calls[k + 1] == GetConnected(true)
  }

  /** Appending calls that are guarded in their new position keeps the whole trace guarded. */
  lemma GuardedAppend(calls: seq<ClientCall>, more: seq<ClientCall>)
    requires Guarded(calls)
    requires forall k :: |calls| <= k < |calls + more| ==> CallGuarded(calls + more, k)
    ensures Guarded(calls + more)
  {
    forall k | 0 <= k < |calls|
      ensures CallGuarded(calls + more, k)
    {
      assert CallGuarded(calls, k);
      assert (calls + more)[k] == calls[k];
      assert k > 0 ==> (calls + more)[k - 1] == calls[k - 1];
    }
  }

  /** In a guarded trace every block read comes right after a size query that came
      right after the client reported the connection up. */
  lemma NoBlockReadWithoutConnection(calls: seq<ClientCall>, k: nat)
    requires Guarded(calls) && k < |calls| && calls[k].DbRead?
    ensures k >= 2 && calls[k - 2] == GetConnected(true) && calls[k - 1] == DbGet(calls[k].db)
  {
    assert CallGuarded(calls, k);
    assert CallGuarded(calls, k - 1);
  }

  class PlcDataLogger {
    var plcIp: string
    var dbNumber: int
    var rack: int
    var slot: int
    var readEnabled: bool
    var status: Status
    var calls: seq<ClientCall>
    /** The records of every CSV file written, oldest first. */
    var savedFiles: seq<seq<Record>>

    /** The read button is enabled only once a connect has been confirmed, and the
        client has never been called against the guards. */
    ghost predicate Valid(): (v: bool)
      reads this
      ensures v ==> Guarded(calls)
      ensures v && readEnabled ==>
                exists k :: 0 <= k < |calls| - 1 && calls[k].Connect? && calls[k].address != "" &&
                            calls[k + 1] == GetConnected(true)
    {
      Guarded(calls) && (readEnabled ==> ConnectConfirmed(calls))
    }

    /** A fresh window: empty address, DB 1, rack 0, slot 1, read button disabled. */
    constructor ()
      ensures Valid()
      ensures plcIp == "" && dbNumber == 1 && rack == 0 && slot == 1
      ensures !readEnabled && status == NotConnected && calls == [] && savedFiles == []
    {
      plcIp, dbNumber, rack, slot := "", 1, 0, 1;
      readEnabled := false;
      status := NotConnected;
      calls := [];
      savedFiles := [];
    }

    /** The user edits the connection settings. */
    method SetSettings(ip: string, db: int, rk: int, sl: int)
      requires Valid()
      modifies this`plcIp, this`dbNumber, this`rack, this`slot
      ensures Valid()
      ensures plcIp == ip && dbNumber == db && rack == rk && slot == sl
    {
      plcIp, dbNumber, rack, slot := ip, db, rk, sl;
    }

    /** The connect button. `linkUp` is the client's answer to `get_connected()`
        after the connect call. */
    method ConnectToPlc(linkUp: bool) returns (outcome: Outcome)
      requires Valid()
      modifies this`readEnabled, this`status, this`calls
      ensures Valid()
      ensures plcIp == "" ==>
                outcome == Failed(MissingAddress) && calls == old(calls) &&
                readEnabled == old(readEnabled) && status == old(status)
      ensures plcIp != "" ==>
                outcome == Done &&
                calls == old(calls) + [Connect(plcIp, rack, slot), GetConnected(linkUp)] &&
                readEnabled == (old(readEnabled) || linkUp) &&
                status == (if linkUp then ConnectedTo(plcIp) else ConnectFailed)
    {
      var ipAddress := plcIp;
      if ipAddress == "" {
        return Failed(MissingAddress);
      }
      var before := calls;
      calls := calls + [Connect(ipAddress, rack, slot), GetConnected(linkUp)];
      GuardedAppend(before, [Connect(ipAddress, rack, slot), GetConnected(linkUp)]);
      if linkUp {
        status := ConnectedTo(ipAddress);
        readEnabled := true;
        assert calls[|before|].Connect? && calls[|before| + 1] == GetConnected(true);
      } else {
        status := ConnectFailed;
        if readEnabled {
          PreserveConfirmed(before, [Connect(ipAddress, rack, slot), GetConnected(linkUp)]);
        }
      }
      outcome := Done;
    }

    /** The read button. `linkUp` is the client's answer to `get_connected()`; `block`
        is the data block as the client delivers it: its length is the size the logger
        takes from element 2 of `db_get`'s result, and its bytes are what `db_read`
        returns. */
    method ReadDbAndSave(linkUp: bool, block: seq<byte>) returns (outcome: Outcome)
      requires Valid()
      modifies this`calls, this`savedFiles
      ensures Valid()
      ensures !linkUp ==>
                outcome == Failed(NotConnectedToPlc) &&
                calls == old(calls) + [GetConnected(false)] && savedFiles == old(savedFiles)
      ensures linkUp ==>
                outcome == Done &&
                calls == old(calls) + [GetConnected(true), DbGet(dbNumber), DbRead(dbNumber, 0, |block|)] &&
                savedFiles == old(savedFiles) + [Csv(block)]
    {
      var before := calls;
      calls := calls + [GetConnected(linkUp)];
      if !linkUp {
        GuardedAppend(before, [GetConnected(linkUp)]);
        if readEnabled {
          PreserveConfirmed(before, [GetConnected(linkUp)]);
        }
        return Failed(NotConnectedToPlc);
      }
      var db := dbNumber;
      calls := calls + [DbGet(db)];
      var dbSize := |block|;
      calls := calls + [DbRead(db, 0, dbSize)];
      assert calls == before + [GetConnected(true), DbGet(db), DbRead(db, 0, dbSize)];
      GuardedAppend(before, [GetConnected(true), DbGet(db), DbRead(db, 0, dbSize)]);
      if readEnabled {
        PreserveConfirmed(before, [GetConnected(true), DbGet(db), DbRead(db, 0, dbSize)]);
      }
      var written := WriteBlockCsv(block);
      savedFiles := savedFiles + [written];
      outcome := Done;
    }
  }

  /** A confirmed connect stays confirmed as the trace grows. */
  lemma PreserveConfirmed(calls: seq<ClientCall>, more: seq<ClientCall>)
    requires ConnectConfirmed(calls)
    ensures ConnectConfirmed(calls + more)
  {
    var k :| 0 <= k < |calls| - 1 && calls[k].Connect? && calls[k + 1] == GetConnected(true);
    assert (calls + more)[k] == calls[k] && (calls + more)[k + 1] == calls[k + 1];
  }
}
