/** The tenant a request acts for. */
module Tenants {
  import opened Wrappers

  /** The organization id, or None while the tenant context is unset. */
  type Org = Option<int>
}
