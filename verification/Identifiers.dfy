/** Name-based identifiers. */
module Identifiers {
  /** Version 5 hashing as a free constructor: no two inputs collide. */
  datatype Uuid = Root | V5(parent: Uuid, name: string)

  function Depth(u: Uuid): nat {
    match u case Root => 0 case V5(parent, _) => 1 + Depth(parent)
  }

  /** The identifier that the first `k` names lead to. */
  function Ancestor(u: Uuid, k: nat): Uuid {
    if Depth(u) <= k then u else Ancestor(u.parent, k)
  }

  /** One more name adds one more ancestor, the identifier itself. */
  lemma Link(u: Uuid, name: string, k: nat)
    ensures Depth(V5(u, name)) == Depth(u) + 1
    ensures Ancestor(V5(u, name), k) == if k <= Depth(u) then Ancestor(u, k) else V5(u, name)
  {
  }

  /** Two chains of one length share an ancestor before their last names, or everything. */
  lemma SharedLink(u: Uuid, name: string, w: Uuid, other: string, k: nat)
    requires Depth(u) == Depth(w)
    ensures Depth(V5(u, name)) == Depth(V5(w, other)) == Depth(u) + 1
    ensures Ancestor(V5(u, name), k) == Ancestor(V5(w, other), k)
       <==> Ancestor(u, k) == Ancestor(w, k) && (k > Depth(u) ==> name == other)
  {
    Link(u, name, k);
    Link(w, other, k);
  }
}
