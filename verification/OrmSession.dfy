/** What a database session that does not flush by itself knows of one table keyed by text. */
module OrmSession {

  /** The flushed rows, and the rows changed and added since without a flush. */
  datatype Session<V> = Session(rows: map<string, V>, changed: map<string, V>, added: map<string, V>) {
    /** What a query returns: loaded rows show their unflushed changes, added rows are not there yet. */
    function Seen(): map<string, V> {
      map k | k in rows :: if k in changed then changed[k] else rows[k]
    }

    /** Look the row up by key, then change it or add a new one. */
    function Put(key: string, value: V): Session<V> {
      if key in rows then this.(changed := changed[key := value]) else this.(added := added[key := value])
    }

    function Flush(): Session<V> {
      Session(rows + changed + added, map[], map[])
    }

    /** Only flushed rows are changed, and only absent ones added. */
    ghost predicate Valid() {
      changed.Keys <= rows.Keys && added.Keys !! rows.Keys
    }

    predicate Clean() {
      changed == map[] && added == map[]
    }
  }

  /** What a write comes to, once flushed: that one key has the value, whether or not it was there. */
  lemma PutThenFlush<V>(s: Session<V>, key: string, value: V)
    requires s.Valid()
    ensures s.Put(key, value).Valid() && s.Put(key, value).Flush().rows == s.Flush().rows[key := value]
  {
    if key in s.rows {
      assert s.changed[key := value] == s.changed + map[key := value];
    } else {
      assert s.added[key := value] == s.added + map[key := value];
    }
  }
}
