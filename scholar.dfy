/**
 * The shape of a publication record returned by the scholarly-profile
 * service after its detail call, and Python's lookup and truthiness rules
 * on it. Both publication scripts read records of this shape.
 */
module Scholar {
  import opened Wrappers

  /**
   * A filled record: its `bib` dict (`None` when the key is missing), its
   * top-level string fields (`pub_url`, `eprint_url`, `author_pub_id`) and
   * its `num_citations` (when present).
   */
  datatype Filled = Filled(
    bib: Option<map<string, string>>,
    fields: map<string, string>,
    numCitations: Option<int>)

  /** Python's `d.get(k)`. */
  function Get(m: map<string, string>, k: string): Option<string> {
    if k in m then Some(m[k]) else None
  }

  /** Python's `d.get(k, default)`. */
  function GetOr(m: map<string, string>, k: string, default: string): string {
    if k in m then m[k] else default
  }

  /** Python truthiness of an optional string: present and non-empty. */
  predicate Truthy(v: Option<string>) {
    v.Some? && v.value != ""
  }

  /** Python's `a or b` on optional strings. */
  function Or(a: Option<string>, b: Option<string>): (r: Option<string>)
    ensures Truthy(r) <==> Truthy(a) || Truthy(b)
    ensures Truthy(a) ==> r == a
    ensures !Truthy(a) ==> r == b
  {
    if Truthy(a) then a else b
  }
}
