/** context/AdConsentContext.tsx: whether the visitor allowed ads, kept in
    React state and persisted in `localStorage` under one key. */
module AdConsent {
  import opened Wrappers

  datatype Status = Unknown | Granted | Denied

  /** The argument type of `setConsent`: a decision, never `'unknown'`. */
  type Decision = s: Status | s != Unknown witness Granted

  const StorageKey := "ai-coding-hub-ad-consent-v1"

  /** The string stored for a decision. */
  function StatusText(d: Decision): (t: string)
    ensures t == "granted" || t == "denied"
  {
    if d == Granted then "granted" else "denied"
  }

  /** The status a stored string stands for: only the two decision strings
      count. */
  function ParseStored(stored: Option<string>): (d: Option<Status>)
    ensures d.Some? <==> stored == Some("granted") || stored == Some("denied")
    ensures d.Some? ==> d.value != Unknown
  {
    if stored == Some("granted") then Some(Granted)
    else if stored == Some("denied") then Some(Denied)
    else None
  }

  /** Storing a decision and reading it back gives the decision. */
  lemma ParseStatusText(d: Decision)
    ensures var r := ParseStored(Some(StatusText(d))); r.Some? && r.value == d
  {
  }

  /** `window.localStorage.getItem` */
  function GetItem(storage: map<string, string>, key: string): (v: Option<string>)
    ensures v.Some? <==> key in storage
    ensures v.Some? ==> v.value == storage[key]
  {
    if key in storage then Some(storage[key]) else None
  }

  /** `AdConsentProvider`: its `status` state and, standing for
      `window.localStorage`, the storage map. */
  class Provider {
    var status: Status
    var storage: map<string, string>

    /** The first render: status `'unknown'` whatever is stored. */
    constructor(storage: map<string, string>)
      ensures status == Unknown && this.storage == storage
    {
      status := Unknown;
      this.storage := storage;
    }

    /** The mount effect: a stored decision is adopted; anything else,
        including nothing stored, leaves the status as it is. */
    method Restore()
      modifies this
      ensures var d := ParseStored(GetItem(old(storage), StorageKey));
        status == if d.Some? then d.value else old(status)
      ensures storage == old(storage)
      ensures old(status) != Unknown ==> status != Unknown
    {
      var stored := GetItem(storage, StorageKey);
      if stored == Some("granted") || stored == Some("denied") {
        status := if stored.value == "granted" then Granted else Denied;
      }
    }

    /** `setConsent`: the decision becomes the status and is stored under the
        key; every other key of the storage is kept. */
    method SetConsent(next: Decision)
      modifies this
      ensures status == next && status != Unknown
      ensures storage == old(storage)[StorageKey := StatusText(next)]
      ensures forall k :: k in old(storage) && k != StorageKey ==> k in storage && storage[k] == old(storage)[k]
    {
      status := next;
      storage := storage[StorageKey := StatusText(next)];
    }
  }

  /** A decision survives a reload: a new provider over the storage the old
      one wrote restores the same status. */
  method DecisionSurvivesReload(storage: map<string, string>, next: Decision) returns (restored: Status)
    ensures restored == next
  {
    var before := new Provider(storage);
    before.SetConsent(next);
    var after := new Provider(before.storage);
    after.Restore();
    ParseStatusText(next);
    restored := after.status;
  }

  /** What the context hands to its consumers. */
  datatype ContextValue = ContextValue(status: Status)

  /** `useAdConsent`: the context value inside a provider, an error outside. */
  function UseAdConsent(context: Option<ContextValue>): (r: Result<ContextValue, string>)
    ensures r.Ok? <==> context.Some?
    ensures r.Ok? ==> r.value == context.value
    ensures r.Err? ==> r.error == "useAdConsent must be used within an AdConsentProvider"
  {
    if context.None? then Err("useAdConsent must be used within an AdConsentProvider")
    else Ok(context.value)
  }
}
