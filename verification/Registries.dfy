/** The registry of instances by id, and the janitor's sweep. */
module Registries {
  import opened Times
  import opened Instances
  import opened InstanceSpec
  import opened Strings
  import Uuids

  class Registry {
    var items: map<string, Instance>
    const ttl: int

    constructor (ttl: int)
      ensures items == map[] && this.ttl == ttl
    {
      items := map[];
      this.ttl := ttl;
    }

    /** An instance is touched if it exists and created if it does not; no other instance is
        changed. An id that is no UUID gets none. */
    method GetOrCreate(id: string, at: Instant) returns (r: Instance?)
      requires id in items ==> items[id].Valid()
      modifies this`items, (if id in items then {items[id]} else {})`lastAccess
      ensures r == null <==> !Uuids.IsUuidText(TrimSpace(id))
      ensures r == null ==> items == old(items) && (id in items ==> unchanged(items[id]))
      ensures r != null ==> r.Valid() && items == old(items)[id := r]
      ensures r != null && id in old(items) ==>
                r == old(items[id]) && r.View() == old(items[id].View()).(lastAccess := at)
      ensures r != null && id !in old(items) ==> fresh(r) && r.View() == New(at)
    {
      var check := Uuids.ValidateUuid(id);
      if !check.UuidOk? {
        return null;
      }
      if id in items {
        items[id].Touch(at);
        r := items[id];
      } else {
        r := new Instance(at);
        items := items[id := r];
      }
    }

    method Sweep(now: Instant)
      modifies this`items
      ensures items
           == map id | id in old(items) && !(0 < ttl && now - old(items)[id].lastAccess > ttl) :: old(items)[id]
    {
      if ttl <= 0 {
        return;
      }
      var todo := items.Keys;
      while todo != {}
        invariant todo <= items.Keys
        invariant items
             == map id | id in old(items) && (id in todo || !(now - old(items)[id].lastAccess > ttl)) :: old(items)[id]
        decreases |todo|
      {
        var id :| id in todo;
        if now - items[id].lastAccess > ttl {
          items := items - {id};
        }
        todo := todo - {id};
      }
    }
  }
}
