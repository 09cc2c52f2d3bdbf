/**
 Entities are owned by the caller; the index only borrows handles to them.
 A handle is a Dafny object reference, so two handles are equal exactly when
 they denote the same entity, and the index reads nothing of an entity but its
 stable non-negative identifier.
 */
module Handles {

  class Entity {
    const id: nat

    constructor (id: nat)
      ensures this.id == id
    {
      this.id := id;
    }
  }
}
