/**
 * Choosing the heart-rate monitor to connect to: getFirstConnectedHxm() of
 * the hxmDemo activity, which scans the bonded Bluetooth devices.
 */
module DeviceSelection {

  datatype Option<T> = None | Some(value: T)

  /** A bonded device as the adapter enumerates it: its name and its address. */
  datatype BondedDevice = BondedDevice(name: string, address: string)

  /** The name prefix that marks a Zephyr HxM. */
  const HxmPrefix: string := "HXM"

  /** Java `s.startsWith(prefix)`: `s` is `prefix` followed by some rest, compared character by character. */
  predicate StartsWith(s: string, prefix: string): (b: bool)
    ensures b <==> exists rest :: s == prefix + rest
  {
    assert |prefix| <= |s| ==> s == s[..|prefix|] + s[|prefix|..];
    |prefix| <= |s| && s[..|prefix|] == prefix
  }

  predicate IsHxm(device: BondedDevice)
  {
    StartsWith(device.name, HxmPrefix)
  }

  /**
   * The position of the first HxM in enumeration order, if there is one:
   * every device before it is not an HxM, and None means none at all is.
   */
  function FirstHxm(devices: seq<BondedDevice>): (r: Option<nat>)
    ensures r.Some? ==> r.value < |devices| && IsHxm(devices[r.value])
    ensures r.Some? ==> forall j :: 0 <= j < r.value ==> !IsHxm(devices[j])
    ensures r.None? <==> forall j :: 0 <= j < |devices| ==> !IsHxm(devices[j])
  {
    if devices == [] then None
    else if IsHxm(devices[0]) then Some(0)
    else match FirstHxm(devices[1..])
      case None => None
      case Some(i) => Some(i + 1)
  }

  /** Devices after the first HxM never change the choice. */
  lemma {:induction false} FirstHxmAppend(devices: seq<BondedDevice>, later: seq<BondedDevice>)
    requires FirstHxm(devices).Some?
    ensures FirstHxm(devices + later) == FirstHxm(devices)
  {
    if !IsHxm(devices[0]) {
      assert (devices + later)[1..] == devices[1..] + later;
      FirstHxmAppend(devices[1..], later);
    }
  }

  /** Devices that are not HxMs, put in front, only shift the choice. */
  lemma {:induction false} FirstHxmSkip(others: seq<BondedDevice>, devices: seq<BondedDevice>)
    requires forall j :: 0 <= j < |others| ==> !IsHxm(others[j])
    ensures FirstHxm(others + devices) ==
      match FirstHxm(devices)
      case None => None
      case Some(i) => Some(|others| + i)
  {
    if others != [] {
      assert (others + devices)[0] == others[0];
      assert (others + devices)[1..] == others[1..] + devices;
      FirstHxmSkip(others[1..], devices);
    } else {
      assert others + devices == devices;
    }
  }

  /** The selections the scan makes on small device lists. */
  lemma SelectionExamples()
    ensures FirstHxm([]) == None
    ensures FirstHxm([BondedDevice("HXM-123", "00:07:80:00:00:01"), BondedDevice("OtherDevice", "00:07:80:00:00:02")]) == Some(0)
    ensures FirstHxm([BondedDevice("OtherDevice", "00:07:80:00:00:02"), BondedDevice("HXM-123", "00:07:80:00:00:01")]) == Some(1)
    ensures FirstHxm([BondedDevice("hxm-7", "00:07:80:00:00:03"), BondedDevice("HX", "00:07:80:00:00:04")]) == None
  {
    var other := BondedDevice("OtherDevice", "00:07:80:00:00:02");
    assert other.name[..3] == "Oth";
    assert !IsHxm(other);
  }

  /** The part of the activity's state that the scan writes: the chosen device, null until found. */
  class HxmLocator {
    var hxmName: Option<string>
    var hxmAddress: Option<string>

    constructor ()
      ensures hxmName == None && hxmAddress == None
    {
      hxmName := None;
      hxmAddress := None;
    }

    /**
     * Forgets any earlier choice, then records the name and address of the
     * first bonded device whose name starts with "HXM". Returns whether an
     * address was recorded.
     */
    method GetFirstConnectedHxm(bondedDevices: seq<BondedDevice>) returns (found: bool)
      modifies this
      ensures found == FirstHxm(bondedDevices).Some?
      ensures found ==> hxmName == Some(bondedDevices[FirstHxm(bondedDevices).value].name)
      ensures found ==> hxmAddress == Some(bondedDevices[FirstHxm(bondedDevices).value].address)
      ensures !found ==> hxmName == None && hxmAddress == None
    {
      hxmAddress := None;
      hxmName := None;
      if |bondedDevices| > 0 {
        var i := 0;
        while i < |bondedDevices|
          invariant 0 <= i <= |bondedDevices|
          invariant forall j :: 0 <= j < i ==> !IsHxm(bondedDevices[j])
          invariant hxmAddress == None && hxmName == None
        {
          var device := bondedDevices[i];
          if StartsWith(device.name, HxmPrefix) {
            hxmAddress := Some(device.address);
            hxmName := Some(device.name);
            break;
          }
          i := i + 1;
        }
      }
      found := hxmAddress.Some?;
    }
  }
}
