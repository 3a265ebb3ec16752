/** The order of locator keys (internal/all/locator_key.go): by tenant, service, log type,
    region, event time and log identifier. */
module LocatorKeys {
  import opened Hashing
  import opened Sorting
  import opened ProofTypes

  function CompareText(a: Text, b: Text): int {
    if a == b then 0 else if TextLess(a, b) then -1 else 1
  }

  /** Negative, zero or positive, as LocatorKey.Compare. */
  function Compare(a: LocatorKey, b: LocatorKey): int {
    if a.tenantID != b.tenantID then CompareText(a.tenantID, b.tenantID)
    else if a.serviceID != b.serviceID then CompareText(a.serviceID, b.serviceID)
    else if a.logType != b.logType then CompareText(a.logType, b.logType)
    else if a.regionID != b.regionID then CompareText(a.regionID, b.regionID)
    else if a.eventTime != b.eventTime then if a.eventTime < b.eventTime then -1 else 1
    else CompareText(a.logID, b.logID)
  }

  predicate KeyLess(a: LocatorKey, b: LocatorKey) {
    Compare(a, b) < 0
  }

  predicate KeyAtMost(a: LocatorKey, b: LocatorKey) {
    !KeyLess(b, a)
  }

  /** Equal keys are the same key, and the order is total. */
  lemma CompareEqual(a: LocatorKey, b: LocatorKey)
    ensures Compare(a, b) == 0 <==> a == b
    ensures Compare(a, b) > 0 <==> KeyLess(b, a)
  {
    hide CompareText;
    CompareTexts(a.tenantID, b.tenantID);
    CompareTexts(a.serviceID, b.serviceID);
    CompareTexts(a.logType, b.logType);
    CompareTexts(a.regionID, b.regionID);
    CompareTexts(a.logID, b.logID);
  }

  lemma CompareTexts(a: Text, b: Text)
    ensures CompareText(a, b) == 0 <==> a == b
    ensures CompareText(a, b) > 0 <==> CompareText(b, a) < 0
  {
    hide TextLess;
    TextOrder();
  }

  lemma KeyOrder()
    ensures StrictOrder(KeyLess)
  {
    hide Compare;
    forall a: LocatorKey, b: LocatorKey ensures !KeyLess(a, a) && (a == b || KeyLess(a, b) || KeyLess(b, a)) {
      CompareEqual(a, a);
      CompareEqual(a, b);
    }
    forall a: LocatorKey, b: LocatorKey, c: LocatorKey | KeyLess(a, b) && KeyLess(b, c) ensures KeyLess(a, c) {
      KeyTransitive(a, b, c);
    }
  }

  lemma KeyTransitive(a: LocatorKey, b: LocatorKey, c: LocatorKey)
    requires KeyLess(a, b) && KeyLess(b, c)
    ensures KeyLess(a, c)
  {
    hide TextLess;
    TextOrder();
    if a.tenantID == b.tenantID == c.tenantID && a.serviceID == b.serviceID == c.serviceID
      && a.logType == b.logType == c.logType
       && a.regionID == b.regionID == c.regionID {
      if a.eventTime == b.eventTime == c.eventTime { assert TextLess(a.logID, c.logID); }
    }
  }

  /** The first field that differs decides: tenant, service, log type, region, time, identifier. */
  lemma FieldsDecide(a: LocatorKey, b: LocatorKey)
    ensures TextLess(a.tenantID, b.tenantID) ==> KeyLess(a, b)
    ensures a.tenantID == b.tenantID && TextLess(a.serviceID, b.serviceID) ==> KeyLess(a, b)
    ensures a.tenantID == b.tenantID && a.serviceID == b.serviceID && TextLess(a.logType, b.logType) ==> KeyLess(a, b)
    ensures a.tenantID == b.tenantID && a.serviceID == b.serviceID && a.logType == b.logType
            && TextLess(a.regionID, b.regionID) ==>
      KeyLess(a, b)
    ensures SameSource(a, b) && a.eventTime < b.eventTime ==> KeyLess(a, b)
    ensures SameSource(a, b) && a.eventTime == b.eventTime && TextLess(a.logID, b.logID) ==> KeyLess(a, b)
  {
    hide TextLess;
    TextOrder();
  }

  /** Keys of one tenant, service, log type and region. */
  predicate SameSource(a: LocatorKey, b: LocatorKey) {
    a.tenantID == b.tenantID && a.serviceID == b.serviceID && a.logType == b.logType && a.regionID == b.regionID
  }

  predicate KeysSorted(keys: seq<LocatorKey>) {
    forall i, j :: 0 <= i < j < |keys| ==> KeyLess(keys[i], keys[j])
  }

  // ---- Key intervals, open-ended where a bound is missing ----

  predicate AboveLow(k: LocatorKey, lo: Option<LocatorKey>) {
    lo.None? || KeyAtMost(lo.value, k)
  }

  predicate BelowHigh(k: LocatorKey, hi: Option<LocatorKey>) {
    hi.None? || KeyLess(k, hi.value)
  }
}
