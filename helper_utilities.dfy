/**
 * The two field validators of HelperUtilities. Both answer `true` when they
 * found something to complain about; the log messages are not modelled.
 * A C# `null` is `None`.
 */
module HelperUtilities {
  import opened Wrappers

  /** `string.IsNullOrEmpty`: true exactly for a missing or an empty string. */
  function ValidateCheckEmptyString(stringToCheck: Option<string>): (isEmpty: bool)
    ensures isEmpty <==> stringToCheck == None || stringToCheck == Some("")
  {
    match stringToCheck
    case None => true
    case Some(text) => |text| == 0
  }

  /** Number of present (non-null) items. */
  function CountPresent<T>(items: seq<Option<T>>): (count: nat)
    ensures count == 0 <==> forall i :: 0 <= i < |items| ==> items[i].None?
    ensures count <= |items|
  {
    if |items| == 0 then 0
    else
      var rest := CountPresent(items[1..]);
      assert forall i :: 1 <= i < |items| ==> items[i] == items[1..][i - 1];
      (if items[0].Some? then 1 else 0) + rest
  }

  /**
   * Walks the items once, noting whether some item is null and counting the
   * others; reports an error when an item is null or when no item is present.
   */
  method ValidateCheckEnumerableValues<T>(enumerableObjectToCheck: seq<Option<T>>) returns (error: bool)
    ensures error <==> (exists i :: 0 <= i < |enumerableObjectToCheck| && enumerableObjectToCheck[i].None?)
                       || CountPresent(enumerableObjectToCheck) == 0
    ensures !error <==> |enumerableObjectToCheck| > 0
                        && forall i :: 0 <= i < |enumerableObjectToCheck| ==> enumerableObjectToCheck[i].Some?
  {
    var items := enumerableObjectToCheck;
    error := false;
    var count := 0;
    var k := 0;
    while k < |items|
      invariant 0 <= k <= |items|
      invariant error <==> exists i :: 0 <= i < k && items[i].None?
      invariant count == CountPresent(items[..k])
    {
      CountPresentSnoc(items[..k], items[k]);
      assert items[..k + 1] == items[..k] + [items[k]];
      if items[k].None? {
        error := true;
      } else {
        count := count + 1;
      }
      k := k + 1;
    }
    assert items[..k] == items;
    if count != 0 {
      return;
    }
    error := true;
  }

  lemma {:induction false} CountPresentSnoc<T>(items: seq<Option<T>>, item: Option<T>)
    ensures CountPresent(items + [item]) == CountPresent(items) + (if item.Some? then 1 else 0)
  {
    if |items| > 0 {
      CountPresentSnoc(items[1..], item);
      assert (items + [item])[1..] == items[1..] + [item];
    }
  }
}
