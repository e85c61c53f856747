/**
 * The formatter's settings: three flags kept in the host's per-extension
 * settings store under a fixed module key, created from the defaults on first
 * access and backfilled key by key when an older entry lacks one.
 */
module Settings {

  /** The keys of the settings record, in the order the defaults declare them. */
  datatype Key = Enabled | ProcessIncoming | ProcessOutgoing

  /** A stored settings record; a key that is absent reads as undefined. */
  type Entry = map<Key, bool>

  /** The key under which the host stores this extension's settings. */
  const MODULE_NAME: string := "quote_formatter"

  /** The keys of the default settings, in declaration order. */
  const DEFAULT_KEYS: seq<Key> := [Enabled, ProcessIncoming, ProcessOutgoing]

  /** A key is one of the three flags. */
  lemma KeyCases(k: Key)
    ensures k == Enabled || k == ProcessIncoming || k == ProcessOutgoing
  {
  }

  /** Every flag defaults to true. */
  function Defaults(): (d: Entry)
    ensures forall k: Key :: k in d && d[k]
  {
    var d := map[Enabled := true, ProcessIncoming := true, ProcessOutgoing := true];
    assert forall k: Key :: k in d && d[k] by {
      forall k: Key ensures k in d && d[k] {
        KeyCases(k);
      }
    }
    d
  }

  /** Every key is present in `e` (all of them are keys of the defaults). */
  predicate IsComplete(e: Entry) {
    forall k: Key :: k in e
  }

  /** `e` with every missing key filled in from the defaults. */
  function Backfill(e: Entry): (b: Entry) {
    map k | k in e.Keys + Defaults().Keys :: if k in e then e[k] else Defaults()[k]
  }

  /** What `getSettings` hands back for a given state of the store: the stored
      entry backfilled, or the defaults when there is no entry. */
  function Loaded(stored: map<string, Entry>): (s: Entry)
    ensures IsComplete(s)
    ensures MODULE_NAME in stored ==> forall k :: k in stored[MODULE_NAME] ==> s[k] == stored[MODULE_NAME][k]
    ensures forall k :: MODULE_NAME !in stored || k !in stored[MODULE_NAME] ==> s[k]
  {
    if MODULE_NAME in stored then Backfill(stored[MODULE_NAME]) else Defaults()
  }

  /** Reading a flag the way `!settings.enabled` does: undefined is falsy. */
  predicate Flag(s: Entry, k: Key) {
    k in s && s[k]
  }

  /** Which host event a handler is serving. */
  datatype Direction = Incoming | Outgoing

  /** The gate of a handler: the extension is enabled and the direction's own
      flag is on. */
  predicate ShouldProcess(s: Entry, d: Direction) {
    Flag(s, Enabled) && Flag(s, if d == Incoming then ProcessIncoming else ProcessOutgoing)
  }

  /** Backfilling leaves every default key defined, keeps a present value and
      gives a missing key its default. */
  lemma BackfillSpec(e: Entry)
    ensures IsComplete(Backfill(e))
    ensures forall k :: k in e ==> Backfill(e)[k] == e[k]
    ensures forall k :: k !in e ==> Backfill(e)[k]
  {
  }

  /** Backfilling an entry that is already complete changes nothing; in
      particular backfilling twice is backfilling once. */
  lemma BackfillIdempotent(e: Entry)
    ensures IsComplete(e) ==> Backfill(e) == e
    ensures Backfill(Backfill(e)) == Backfill(e)
  {
  }

  /** An absent entry and an empty one both load as the defaults, and with the
      defaults both handlers run. */
  lemma FreshSettingsProcessBoth(stored: map<string, Entry>, d: Direction)
    requires MODULE_NAME !in stored || stored[MODULE_NAME] == map[]
    ensures Loaded(stored) == Defaults()
    ensures ShouldProcess(Loaded(stored), d)
  {
    if MODULE_NAME in stored {
      assert Backfill(map[]) == Defaults();
    }
  }

  /** A stored `enabled: false` closes the gate in both directions. */
  lemma DisabledClosesGate(stored: map<string, Entry>, d: Direction)
    requires MODULE_NAME in stored && Enabled in stored[MODULE_NAME] && !stored[MODULE_NAME][Enabled]
    ensures !ShouldProcess(Loaded(stored), d)
  {
  }

  /** The host's extension settings store, as far as this extension uses it. */
  class ExtensionSettings {
    /** `extension_settings`: one entry per extension, keyed by module name. */
    var stored: map<string, Entry>
    /** Set once the debounced save of the host settings has been requested. */
    ghost var saveRequested: bool

    constructor (stored: map<string, Entry>)
      ensures this.stored == stored && !saveRequested
    {
      this.stored := stored;
      saveRequested := false;
    }

    /**
     * `getSettings()`: create the entry from the defaults (and request a save)
     * when there is none, then fill in every missing default key; return the
     * entry.  Other extensions' entries are left alone.
     */
    method GetSettings() returns (s: Entry)
      modifies this
      ensures s == Loaded(old(stored))
      ensures stored == old(stored)[MODULE_NAME := s]
      ensures saveRequested == (old(saveRequested) || MODULE_NAME !in old(stored))
    {
      if MODULE_NAME !in stored {
        stored := stored[MODULE_NAME := Defaults()];
        saveRequested := true;
      }
      ghost var before := stored;
      ghost var e0 := stored[MODULE_NAME];
      for i := 0 to |DEFAULT_KEYS|
        invariant MODULE_NAME in stored
        invariant saveRequested == (old(saveRequested) || MODULE_NAME !in old(stored))
        invariant stored == before[MODULE_NAME := stored[MODULE_NAME]]
        invariant forall k :: k in stored[MODULE_NAME] <==> k in e0 || k in DEFAULT_KEYS[..i]
        invariant forall k :: k in stored[MODULE_NAME] ==>
          stored[MODULE_NAME][k] == if k in e0 then e0[k] else Defaults()[k]
      {
        var key := DEFAULT_KEYS[i];
        if key !in stored[MODULE_NAME] {
          stored := stored[MODULE_NAME := stored[MODULE_NAME][key := Defaults()[key]]];
        }
      }
      s := stored[MODULE_NAME];
      assert DEFAULT_KEYS[..|DEFAULT_KEYS|] == DEFAULT_KEYS;
      forall k: Key ensures k in s {
        KeyCases(k);
      }
      assert s == Backfill(e0);
      if MODULE_NAME !in old(stored) {
        assert Backfill(Defaults()) == Defaults();
      }
      assert stored == old(stored)[MODULE_NAME := s];
    }
  }
}
