/**
 * `_setup_block_device_mapping`: the block-device-mapping rows of an
 * instance, in the order the database lists them, are sorted into the swap
 * device, the ephemeral disks and the volumes to attach.  The helpers of
 * `nova.block_device` and the volume API are parameters.
 */
module ComputeBdm {
  import opened Wrappers

  /** A row of `block_device_mapping`; an empty `virtual_name` is false in
      Python, as is `None`. */
  datatype Bdm = Bdm(
    id: nat,
    noDevice: bool,
    virtualName: Option<string>,
    deviceName: string,
    volumeSize: Option<int>,
    snapshotId: Option<string>,
    volumeId: Option<string>)

  /** `block_device.is_ephemeral` and `block_device.ephemeral_num`; the volume
      API's `create` (the id of the volume made from a snapshot with a size)
      and `_attach_volume_boot` (the connection info for a volume attached
      at a device). */
  datatype Services = Services(
    isEphemeral: string -> bool,
    ephemeralNum: string -> int,
    createVolume: (Option<int>, string) -> string,
    attach: (string, string) -> string)

  datatype Swap = Swap(deviceName: string, swapSize: Option<int>)
  datatype Ephemeral = Ephemeral(num: int, virtualName: string, deviceName: string, size: Option<int>)
  datatype Mount = Mount(connectionInfo: string, mountDevice: string)

  /** The database and volume calls made for a row: a volume created from its
      snapshot (and its id stored), and a volume attached (and its connection
      info stored). */
  datatype VolumeCall =
    | CreateVolume(bdmId: nat, volumeId: string)
    | AttachVolume(bdmId: nat, volumeId: string, connectionInfo: string)

  /** The failed `assert block_device.is_swap_or_ephemeral(virtual_name)`. */
  datatype BdmError = NotSwapOrEphemeral(virtualName: string)

  /** What one row turns into. */
  datatype Entry =
    | Skipped
    | SwapDevice(swap: Swap)
    | EphemeralDisk(disk: Ephemeral)
    | Volume(calls: seq<VolumeCall>, mount: Mount)

  predicate Truthy(s: Option<string>) {
    s.Some? && s.value != ""
  }

  /** A row with a snapshot but no volume yet. */
  predicate SnapshotOnly(b: Bdm) {
    b.snapshotId.Some? && b.volumeId.None?
  }

  /** The treatment of one row inside the loop of `_setup_block_device_mapping`. */
  function Classify(svc: Services, b: Bdm): (r: Result<Entry, BdmError>)
    ensures r.Err? <==> (!b.noDevice && Truthy(b.virtualName)
      && b.virtualName.value != "swap" && !svc.isEphemeral(b.virtualName.value))
    ensures (r.Ok? && r.value.Volume?) <==>
      (!b.noDevice && !Truthy(b.virtualName) && (b.volumeId.Some? || b.snapshotId.Some?))
    ensures (r.Ok? && r.value.SwapDevice?) <==> (!b.noDevice && b.virtualName == Some("swap"))
    ensures (r.Ok? && r.value.EphemeralDisk?) <==> (!b.noDevice && Truthy(b.virtualName)
      && b.virtualName.value != "swap" && svc.isEphemeral(b.virtualName.value))
    ensures r.Ok? && r.value.SwapDevice? ==> r.value.swap == Swap(b.deviceName, b.volumeSize)
    ensures r.Ok? && r.value.EphemeralDisk? ==>
      r.value.disk == Ephemeral(svc.ephemeralNum(b.virtualName.value), b.virtualName.value, b.deviceName, b.volumeSize)
  {
    if b.noDevice then Ok(Skipped)
    else if Truthy(b.virtualName) then
      var v := b.virtualName.value;
      if !(v == "swap" || svc.isEphemeral(v)) then Err(NotSwapOrEphemeral(v))
      else if v == "swap" then Ok(SwapDevice(Swap(b.deviceName, b.volumeSize)))
      else Ok(EphemeralDisk(Ephemeral(svc.ephemeralNum(v), v, b.deviceName, b.volumeSize)))
    else
      var created :=
        if SnapshotOnly(b) then [CreateVolume(b.id, svc.createVolume(b.volumeSize, b.snapshotId.value))]
        else [];
      var volumeId := if SnapshotOnly(b) then Some(created[0].volumeId) else b.volumeId;
      if volumeId.None? then Ok(Skipped)
      else
        var info := svc.attach(volumeId.value, b.deviceName);
        Ok(Volume(created + [AttachVolume(b.id, volumeId.value, info)], Mount(info, b.deviceName)))
  }

  /** The triple `(swap, ephemerals, block_device_mapping)` being built, and
      the calls made so far. */
  datatype Setup = Setup(
    swap: Option<Swap>,
    ephemerals: seq<Ephemeral>,
    mounts: seq<Mount>,
    calls: seq<VolumeCall>)

  const EMPTY := Setup(None, [], [], [])

  function Add(acc: Setup, e: Entry): Setup {
    match e
    case Skipped => acc
    case SwapDevice(s) => acc.(swap := Some(s))
    case EphemeralDisk(d) => acc.(ephemerals := acc.ephemerals + [d])
    case Volume(calls, m) => acc.(mounts := acc.mounts + [m], calls := acc.calls + calls)
  }

  /** The outcome after the given rows, in order; the first failed assertion
      ends the run. */
  function SetupAll(svc: Services, bdms: seq<Bdm>): Result<Setup, BdmError> {
    if bdms == [] then Ok(EMPTY)
    else
      match SetupAll(svc, bdms[..|bdms| - 1])
      case Err(e) => Err(e)
      case Ok(acc) =>
        match Classify(svc, bdms[|bdms| - 1])
        case Err(e) => Err(e)
        case Ok(entry) => Ok(Add(acc, entry))
  }

  /** `_setup_block_device_mapping`. */
  method SetupBlockDeviceMapping(svc: Services, bdms: seq<Bdm>) returns (r: Result<Setup, BdmError>)
    ensures r == SetupAll(svc, bdms)
  {
    var acc := EMPTY;
    var i := 0;
    while i < |bdms|
      invariant 0 <= i <= |bdms|
      invariant SetupAll(svc, bdms[..i]) == Ok(acc)
    {
      assert bdms[..i + 1][..i] == bdms[..i];
      match Classify(svc, bdms[i])
      case Err(e) =>
        SetupAllErrStays(svc, bdms, i + 1);
        return Err(e);
      case Ok(entry) =>
        acc := Add(acc, entry);
      i := i + 1;
    }
    assert bdms[..i] == bdms;
    r := Ok(acc);
  }

  /** Once a prefix fails, the whole run fails with the same error. */
  lemma {:induction false} SetupAllErrStays(svc: Services, bdms: seq<Bdm>, n: nat)
    requires n <= |bdms| && SetupAll(svc, bdms[..n]).Err?
    ensures SetupAll(svc, bdms) == SetupAll(svc, bdms[..n])
    decreases |bdms| - n
  {
    if n == |bdms| {
      assert bdms[..n] == bdms;
    } else {
      assert bdms[..n + 1][..n] == bdms[..n];
      SetupAllErrStays(svc, bdms, n + 1);
    }
  }

  // ---------------------------------------------------------------------
  // What the run computes

  /** A row that fails the assertion. */
  predicate Bad(svc: Services, b: Bdm) {
    Classify(svc, b).Err?
  }

  /** The run fails exactly when some row fails the assertion, and then with
      the first such row's name. */
  lemma {:induction false} SetupAllFails(svc: Services, bdms: seq<Bdm>)
    ensures SetupAll(svc, bdms).Err? <==> exists i :: 0 <= i < |bdms| && Bad(svc, bdms[i])
    ensures SetupAll(svc, bdms).Err? ==> exists i :: (0 <= i < |bdms| && Bad(svc, bdms[i])
      && (forall j :: 0 <= j < i ==> !Bad(svc, bdms[j]))
      && SetupAll(svc, bdms).error == Classify(svc, bdms[i]).error)
  {
    if bdms != [] {
      var init := bdms[..|bdms| - 1];
      SetupAllFails(svc, init);
      forall j | 0 <= j < |init| ensures init[j] == bdms[j] { }
      if SetupAll(svc, init).Err? {
        var i :| 0 <= i < |init| && Bad(svc, init[i])
          && (forall j :: 0 <= j < i ==> !Bad(svc, init[j]))
          && SetupAll(svc, init).error == Classify(svc, init[i]).error;
        assert bdms[i] == init[i];
      } else {
        forall j | 0 <= j < |init| ensures !Bad(svc, bdms[j]) {
          assert init[j] == bdms[j];
        }
      }
    }
  }

  /** Rows with `no_device` are skipped: removing one changes nothing. */
  lemma {:induction false} NoDeviceSkipped(svc: Services, a: seq<Bdm>, x: Bdm, b: seq<Bdm>)
    requires x.noDevice
    ensures SetupAll(svc, a + [x] + b) == SetupAll(svc, a + b)
    decreases |b|
  {
    if b == [] {
      assert (a + [x] + b)[..|a + [x] + b| - 1] == a;
      assert a + b == a;
    } else {
      var b' := b[..|b| - 1];
      NoDeviceSkipped(svc, a, x, b');
      assert (a + [x] + b)[..|a + [x] + b| - 1] == a + [x] + b';
      assert (a + b)[..|a + b| - 1] == a + b';
      assert (a + [x] + b)[|a + [x] + b| - 1] == b[|b| - 1];
      assert (a + b)[|a + b| - 1] == b[|b| - 1];
    }
  }

  /** A row whose virtual name is `swap`. */
  predicate SwapRow(b: Bdm) {
    !b.noDevice && b.virtualName == Some("swap")
  }

  /** `swap` is set exactly when some row's virtual name is `swap`. */
  lemma {:induction false} SetupAllSwapSet(svc: Services, bdms: seq<Bdm>)
    requires SetupAll(svc, bdms).Ok?
    ensures SetupAll(svc, bdms).value.swap.Some? <==> exists i :: 0 <= i < |bdms| && SwapRow(bdms[i])
  {
    if bdms != [] {
      var init := bdms[..|bdms| - 1];
      SetupAllSwapSet(svc, init);
      if exists i :: 0 <= i < |init| && SwapRow(init[i]) {
        var i :| 0 <= i < |init| && SwapRow(init[i]);
        assert bdms[i] == init[i];
      }
      if !SwapRow(bdms[|bdms| - 1]) && exists i :: 0 <= i < |bdms| && SwapRow(bdms[i]) {
        var i :| 0 <= i < |bdms| && SwapRow(bdms[i]);
        assert init[i] == bdms[i];
      }
    }
  }

  /** When set, `swap` comes from the last row whose virtual name is `swap`:
      a later such row overrides an earlier one. */
  lemma {:induction false} SetupAllSwapLast(svc: Services, bdms: seq<Bdm>) returns (i: nat)
    requires SetupAll(svc, bdms).Ok? && SetupAll(svc, bdms).value.swap.Some?
    ensures i < |bdms| && SwapRow(bdms[i])
    ensures SetupAll(svc, bdms).value.swap == Some(Swap(bdms[i].deviceName, bdms[i].volumeSize))
    ensures forall j :: i < j < |bdms| ==> !SwapRow(bdms[j])
  {
    var init := bdms[..|bdms| - 1];
    var last := bdms[|bdms| - 1];
    if SwapRow(last) {
      i := |bdms| - 1;
    } else {
      assert !Classify(svc, last).value.SwapDevice?;
      i := SetupAllSwapLast(svc, init);
      assert bdms[i] == init[i];
      forall j | i < j < |bdms| ensures !SwapRow(bdms[j]) {
        if j < |init| {
          assert bdms[j] == init[j];
        }
      }
    }
  }

  /** The entries of one kind that a list of rows contributes, row by row
      from the front. */
  function Gather<T>(f: Entry -> seq<T>, svc: Services, bdms: seq<Bdm>): seq<T> {
    if bdms == [] then []
    else
      (match Classify(svc, bdms[0]) case Ok(e) => f(e) case Err(_) => [])
        + Gather(f, svc, bdms[1..])
  }

  lemma {:induction false} GatherAppend<T>(f: Entry -> seq<T>, svc: Services, a: seq<Bdm>, b: seq<Bdm>)
    ensures Gather(f, svc, a + b) == Gather(f, svc, a) + Gather(f, svc, b)
  {
    if a == [] {
      assert a + b == b;
    } else {
      assert (a + b)[0] == a[0];
      assert (a + b)[1..] == a[1..] + b;
      GatherAppend(f, svc, a[1..], b);
    }
  }

  function EphemeralPart(e: Entry): seq<Ephemeral> {
    if e.EphemeralDisk? then [e.disk] else []
  }

  function MountPart(e: Entry): seq<Mount> {
    if e.Volume? then [e.mount] else []
  }

  function CallPart(e: Entry): seq<VolumeCall> {
    if e.Volume? then e.calls else []
  }

  /** The ephemerals are those of the ephemeral rows, in the rows' order; the
      mounts are those of the rows that have or get a volume, in order; and
      the calls are those rows' calls, in order. */
  lemma {:induction false} SetupAllLists(svc: Services, bdms: seq<Bdm>)
    requires SetupAll(svc, bdms).Ok?
    ensures SetupAll(svc, bdms).value.ephemerals == Gather(EphemeralPart, svc, bdms)
    ensures SetupAll(svc, bdms).value.mounts == Gather(MountPart, svc, bdms)
    ensures SetupAll(svc, bdms).value.calls == Gather(CallPart, svc, bdms)
  {
    if bdms != [] {
      var init := bdms[..|bdms| - 1];
      var last := bdms[|bdms| - 1];
      SetupAllLists(svc, init);
      assert init + [last] == bdms;
      GatherAppend(EphemeralPart, svc, init, [last]);
      GatherAppend(MountPart, svc, init, [last]);
      GatherAppend(CallPart, svc, init, [last]);
      assert [last][1..] == [];
    }
  }

  /** A row with a snapshot and no volume has a volume created from that
      snapshot, and that very volume is attached next, at the row's device. */
  lemma SnapshotVolumeCreatedFirst(svc: Services, b: Bdm)
    requires !b.noDevice && !Truthy(b.virtualName) && SnapshotOnly(b)
    ensures var v := svc.createVolume(b.volumeSize, b.snapshotId.value);
      Classify(svc, b) == Ok(Volume(
        [CreateVolume(b.id, v), AttachVolume(b.id, v, svc.attach(v, b.deviceName))],
        Mount(svc.attach(v, b.deviceName), b.deviceName)))
  {
    var v := svc.createVolume(b.volumeSize, b.snapshotId.value);
    var created := [CreateVolume(b.id, v)];
    assert created[0].volumeId == v;
    assert created + [AttachVolume(b.id, v, svc.attach(v, b.deviceName))]
      == [CreateVolume(b.id, v), AttachVolume(b.id, v, svc.attach(v, b.deviceName))];
  }

  /** A row with a volume creates none and attaches its own volume. */
  lemma ExistingVolumeAttached(svc: Services, b: Bdm)
    requires !b.noDevice && !Truthy(b.virtualName) && b.volumeId.Some?
    ensures Classify(svc, b) == Ok(Volume(
        [AttachVolume(b.id, b.volumeId.value, svc.attach(b.volumeId.value, b.deviceName))],
        Mount(svc.attach(b.volumeId.value, b.deviceName), b.deviceName)))
  {
    var none: seq<VolumeCall> := [];
    var call := AttachVolume(b.id, b.volumeId.value, svc.attach(b.volumeId.value, b.deviceName));
    assert none + [call] == [call];
  }

  /** A list that sets up has no bad row. */
  lemma RowOk(svc: Services, bdms: seq<Bdm>, i: nat)
    requires SetupAll(svc, bdms).Ok? && i < |bdms|
    ensures Classify(svc, bdms[i]).Ok?
  {
    SetupAllFails(svc, bdms);
  }

  /** What row `i` contributes sits in the gathered list right after what the
      rows before it contribute. */
  lemma GatherAt<T>(f: Entry -> seq<T>, svc: Services, bdms: seq<Bdm>, i: nat)
    requires i < |bdms| && Classify(svc, bdms[i]).Ok?
    ensures var all, start, row := Gather(f, svc, bdms), |Gather(f, svc, bdms[..i])|, f(Classify(svc, bdms[i]).value);
      start + |row| <= |all| && all[start..start + |row|] == row
  {
    var pre, post := bdms[..i], bdms[i..];
    assert bdms == pre + post;
    GatherAppend(f, svc, pre, post);
    var row := f(Classify(svc, bdms[i]).value);
    assert post[0] == bdms[i];
    var head, tail := Gather(f, svc, pre), Gather(f, svc, post[1..]);
    assert Gather(f, svc, post) == row + tail;
    assert Gather(f, svc, bdms) == head + row + tail;
  }

  /** In a successful run, the calls of row i come as one block after those of
      the rows before it. */
  lemma RowCalls(svc: Services, bdms: seq<Bdm>, i: nat)
    requires SetupAll(svc, bdms).Ok? && i < |bdms|
    ensures Classify(svc, bdms[i]).Ok?
    ensures var calls := SetupAll(svc, bdms).value.calls;
      var start := |Gather(CallPart, svc, bdms[..i])|;
      start + |CallPart(Classify(svc, bdms[i]).value)| <= |calls|
      && calls[start..start + |CallPart(Classify(svc, bdms[i]).value)|] == CallPart(Classify(svc, bdms[i]).value)
  {
    RowOk(svc, bdms, i);
    SetupAllLists(svc, bdms);
    GatherAt(CallPart, svc, bdms, i);
  }


}
