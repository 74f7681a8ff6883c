/** The index that NumPy's `argmin` returns: the first position of a least key. */
module ArgMin {

  function FirstArgMin(keys: seq<int>): (k: nat)
    requires |keys| > 0
    ensures k < |keys|
    ensures forall j :: 0 <= j < |keys| ==> keys[k] <= keys[j]
    ensures forall j :: 0 <= j < k ==> keys[j] > keys[k]
  {
    if |keys| == 1 then 0
    else
      var k := FirstArgMin(keys[..|keys| - 1]);
      if keys[|keys| - 1] < keys[k] then |keys| - 1 else k
  }
}
