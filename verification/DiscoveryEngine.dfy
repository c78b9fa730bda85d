/** The change detector and the discovery engine as objects, proved to take the steps of `Alerts`. */
module DiscoveryEngines {
  import opened Bytes
  import opened Inventory
  import opened Alerts
  import opened LastWins
  import opened DeviceRepositories

  class ChangeDetector {
    /** Devices whose disappearance has been alerted. */
    var disappearedAlerted: set<Key>
    /** Alerts persisted and dispatched, in order. */
    var dispatched: seq<Alert>

    constructor ()
      ensures disappearedAlerted == {} && dispatched == []
    {
      disappearedAlerted, dispatched := {}, [];
    }

    /** `key` identifies the device that was looked up. */
    method ProcessFingerprint(key: Key, fp: Fingerprint, existing: Option<Record>) returns (alerts: seq<Alert>)
      modifies this
      ensures alerts == Detect(key, fp, existing) && dispatched == old(dispatched) + alerts
      ensures disappearedAlerted == if existing.Some? then old(disappearedAlerted) - {key} else old(disappearedAlerted)
    {
      alerts := [];
      match existing {
        case None =>
          alerts := alerts + [NewDevice(key, fp.protocol)];
        case Some(device) =>
          disappearedAlerted := disappearedAlerted - {key};
          alerts := alerts + FirmwareAlert(key, fp, device);
          alerts := alerts + ProtocolAlert(key, fp, device);
      }
      dispatched := dispatched + alerts;
    }

    method CheckDisappearedDevices(sightings: seq<Sighting>, now: int, timeout: int) returns (alerts: seq<Alert>)
      modifies this
      ensures (alerts, disappearedAlerted) == CheckSightings(sightings, now, timeout, old(disappearedAlerted))
      ensures dispatched == old(dispatched) + alerts
    {
      alerts := [];
      for i := 0 to |sightings|
        invariant (alerts, disappearedAlerted) == CheckSightings(sightings[..i], now, timeout, old(disappearedAlerted))
        invariant dispatched == old(dispatched)
      {
        assert sightings[..i + 1][..i] == sightings[..i];
        var elapsed := now - sightings[i].lastSeen;
        if elapsed > timeout {
          if sightings[i].key !in disappearedAlerted {
            disappearedAlerted := disappearedAlerted + {sightings[i].key};
            alerts := alerts + [DeviceDisappeared(sightings[i].key)];
          }
        }
      }
      assert sightings[..|sightings|] == sightings;
      dispatched := dispatched + alerts;
    }

    method ClearDisappearedState(key: Key)
      modifies this
      ensures disappearedAlerted == old(disappearedAlerted) - {key} && dispatched == old(dispatched)
    {
      disappearedAlerted := disappearedAlerted - {key};
    }
  }

  class DiscoveryEngine {
    const repository: DeviceRepository
    const detector: ChangeDetector
    /** The alerts of handlers that did not get to merge. */
    ghost var lost: seq<Alert>

    constructor (repository: DeviceRepository, detector: ChangeDetector)
      ensures this.repository == repository && this.detector == detector && lost == []
    {
      this.repository, this.detector, lost := repository, detector, [];
    }

    ghost function Current(): State
      reads this, repository, repository.devices.Values, detector
    {
      State(repository.Contents(), detector.disappearedAlerted, detector.dispatched, lost)
    }

    /** Both handlers, passive and active: look up, detect, merge.  `merges` says whether the database accepts
        the merge. */
    method HandleFingerprint(fp: Fingerprint, at: int, merges: bool)
      requires repository.Valid()
      modifies this`lost, repository, repository.devices.Values, detector
      ensures repository.Valid()
      ensures Current() == Next(repository.db, old(Current()), Seen(fp, at, merges))
    {
      hide Upsert, Detect, KeyOf, DeviceRepository.Contents, DeviceRepository.Valid;
      var looked := KeyOf(repository.db, fp);
      if looked.None? { return; }
      var key := looked.value;
      var existing := repository.GetDeviceByMacIp(key);
      var alerts := detector.ProcessFingerprint(key, fp, existing);
      assert existing == Lookup(repository.Contents(), key);
      if !merges {
        lost := lost + alerts;
        return;
      }
      var outcome := repository.UpsertDevice(ObservationOf(key, fp, at));
    }
  }
}
