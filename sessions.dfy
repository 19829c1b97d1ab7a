/** The request session, as the module reads and writes it. */
module Sessions {
  import opened Php

  class Session {
    var entries: map<string, Value>

    constructor (entries: map<string, Value>)
      ensures this.entries == entries
    {
      this.entries := entries;
    }

    /** `$session->get($key, $default)` */
    method Get(key: string, default: Value) returns (v: Value)
      ensures v == Lookup(entries, key, default)
    {
      v := Lookup(entries, key, default);
    }

    /** `$session->set($key, $v)` */
    method Set(key: string, v: Value)
      modifies this
      ensures entries == old(entries)[key := v]
    {
      entries := entries[key := v];
    }

    /** `$session->remove($key)` */
    method Remove(key: string)
      modifies this
      ensures entries == old(entries) - {key}
    {
      entries := entries - {key};
    }
  }
}
