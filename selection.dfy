/**
 * Device selection at session construction: filtering the enumerated devices,
 * counting the matches, and taking the first one.
 */
module Selection {
  import opened Wrappers
  import opened Transport

  /** The vendor identifier the default construction looks for. */
  const CrestronVendorId := 0x14BE

  /** The predicates the constructors filter the enumerated devices with. */
  datatype Filter = VendorIs(vendorId: int) | ProductAndVendorAre(productId: int, vendorId: int)

  predicate Matches(f: Filter, d: DeviceInfo) {
    match f
    case VendorIs(v) => d.vendorId == v
    case ProductAndVendorAre(p, v) => d.productId == p && d.vendorId == v
  }

  /** The matching devices, in enumeration order. */
  function Matching(ds: seq<DeviceInfo>, f: Filter): (m: seq<DeviceInfo>)
    ensures |m| <= |ds|
    ensures forall d :: d in m ==> d in ds && Matches(f, d)
  {
    if ds == [] then []
    else (if Matches(f, ds[0]) then [ds[0]] else []) + Matching(ds[1..], f)
  }

  /** The position of the first matching device, or None when no device matches. */
  function FirstMatch(ds: seq<DeviceInfo>, f: Filter): (r: Option<nat>)
    ensures r.Some? ==> r.value < |ds| && Matches(f, ds[r.value])
    ensures r.Some? ==> forall j :: 0 <= j < r.value ==> !Matches(f, ds[j])
    ensures r.None? <==> forall j :: 0 <= j < |ds| ==> !Matches(f, ds[j])
  {
    if ds == [] then None
    else if Matches(f, ds[0]) then Some(0)
    else match FirstMatch(ds[1..], f)
      case None => None
      case Some(k) => Some(k + 1)
  }

  /** Why the default construction refuses to bind a device. */
  datatype SelectError = NoDeviceFound | AmbiguousDevice

  /**
   * The default construction's rule: no match and more than one match are
   * errors; otherwise the position of the one matching device.
   */
  function SelectUnique(ds: seq<DeviceInfo>, f: Filter): (r: Result<nat, SelectError>)
    ensures r == Failure(NoDeviceFound) <==> forall j :: 0 <= j < |ds| ==> !Matches(f, ds[j])
    ensures r == Failure(AmbiguousDevice) <==>
      exists i, j :: 0 <= i < j < |ds| && Matches(f, ds[i]) && Matches(f, ds[j])
    ensures r.Success? ==> r.value < |ds| && Matches(f, ds[r.value])
    ensures r.Success? ==> forall j :: 0 <= j < |ds| && j != r.value ==> !Matches(f, ds[j])
  {
    var m := Matching(ds, f);
    MatchingCount(ds, f);
    if |m| == 0 then Failure(NoDeviceFound)
    else if |m| > 1 then Failure(AmbiguousDevice)
    else Success(FirstMatch(ds, f).value)
  }

  /** The match count is zero exactly when nothing matches, and above one exactly when two positions match. */
  lemma {:induction false} MatchingCount(ds: seq<DeviceInfo>, f: Filter)
    ensures |Matching(ds, f)| == 0 <==> forall j :: 0 <= j < |ds| ==> !Matches(f, ds[j])
    ensures |Matching(ds, f)| > 1 <==>
      exists i, j :: 0 <= i < j < |ds| && Matches(f, ds[i]) && Matches(f, ds[j])
  {
    if ds != [] {
      var t := ds[1..];
      MatchingCount(t, f);
      if |Matching(ds, f)| > 1 {
        if Matches(f, ds[0]) {
          var k :| 0 <= k < |t| && Matches(f, t[k]);
          assert Matches(f, ds[0]) && Matches(f, ds[k + 1]);
        } else {
          var i, j :| 0 <= i < j < |t| && Matches(f, t[i]) && Matches(f, t[j]);
          assert Matches(f, ds[i + 1]) && Matches(f, ds[j + 1]);
        }
      }
      if exists i, j :: 0 <= i < j < |ds| && Matches(f, ds[i]) && Matches(f, ds[j]) {
        var i, j :| 0 <= i < j < |ds| && Matches(f, ds[i]) && Matches(f, ds[j]);
        if i == 0 {
          assert Matches(f, t[j - 1]);
        } else {
          assert Matches(f, t[i - 1]) && Matches(f, t[j - 1]);
        }
      }
      forall j | 0 <= j < |t| ensures t[j] == ds[j + 1] { }
    }
  }

  /** When exactly one device matches, it is also the first match: the default construction binds it. */
  lemma UniqueIsFirst(ds: seq<DeviceInfo>, f: Filter)
    requires SelectUnique(ds, f).Success?
    ensures FirstMatch(ds, f) == Some(SelectUnique(ds, f).value)
  {
  }
}
