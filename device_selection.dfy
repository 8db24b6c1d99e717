/**
  Choosing the virtual capture device at startup: the first device whose
  name mentions Soundflower or BlackHole. Without one the listener does not
  start; with one it opens the stream and first requests the LOW level.
 */
module DeviceSelection {
  import opened Wrappers
  import opened Text
  import opened PhraseDetector

  /** The device-name test: "soundflower" case-sensitively, "blackhole" in the lower-cased name. */
  function IsVirtualDevice(name: string): (r: bool)
    ensures r <==> (exists i: nat :: OccursAt(name, "soundflower", i)) ||
                   (exists i: nat :: OccursAt(Lower(name), "blackhole", i))
  {
    Contains(name, "soundflower") || Contains(Lower(name), "blackhole")
  }

  /**
    The search over the device names in index order that stops at the first
    virtual device: the smallest such index, or None when there is none.
   */
  method SelectDevice(names: seq<string>) returns (index: Option<nat>)
    ensures index.Some? ==> index.value < |names| && IsVirtualDevice(names[index.value])
    ensures index.Some? ==> forall j :: 0 <= j < index.value ==> !IsVirtualDevice(names[j])
    ensures index.None? <==> forall j :: 0 <= j < |names| ==> !IsVirtualDevice(names[j])
  {
    index := None;
    var i := 0;
    while i < |names|
      invariant 0 <= i <= |names|
      invariant forall j :: 0 <= j < i ==> !IsVirtualDevice(names[j])
    {
      if IsVirtualDevice(names[i]) {
        index := Some(i);
        return;
      }
      i := i + 1;
    }
  }

  /** How startup ends: refused for want of a device, or listening on one with its first volume request. */
  datatype Startup = DeviceNotFound | Listening(device: nat, initialRequest: Level)

  /**
    Startup of the listener: without a virtual device it stops before
    opening any stream; otherwise it listens on the first one and requests
    LOW, the initial GainState.
   */
  method StartListener(names: seq<string>) returns (outcome: Startup)
    ensures outcome.DeviceNotFound? <==> forall j :: 0 <= j < |names| ==> !IsVirtualDevice(names[j])
    ensures outcome.Listening? ==>
              outcome.device < |names| && IsVirtualDevice(names[outcome.device]) &&
              (forall j :: 0 <= j < outcome.device ==> !IsVirtualDevice(names[j])) &&
              outcome.initialRequest == Low
  {
    var index := SelectDevice(names);
    if index.None? {
      return DeviceNotFound;
    }
    outcome := Listening(index.value, Low);
  }

  /**
    The "soundflower" test is case-sensitive: a device name spelled with a
    capital S and without "blackhole" is not selected.
   */
  lemma CapitalisedSoundflowerNotSelected(name: string)
    requires name == "Soundflower (2ch)"
    ensures !IsVirtualDevice(name)
  {
    assert forall i :: 0 <= i < |name| ==> name[i] != 's';
    assert forall i: nat :: OccursAt(name, "soundflower", i) ==> name[i..i + 11][0] == name[i];
    var lower := Lower(name);
    assert forall i :: 0 <= i < |lower| ==> lower[i] != 'b';
    assert forall i: nat :: OccursAt(lower, "blackhole", i) ==> lower[i..i + 9][0] == lower[i];
  }

  /** The "blackhole" test ignores case. */
  lemma BlackHoleSelectedInAnyCase()
    ensures IsVirtualDevice("BlackHole 2ch")
  {
    assert Lower("BlackHole 2ch")[..9] == "blackhole";
    assert OccursAt(Lower("BlackHole 2ch"), "blackhole", 0);
  }
}
