/** The name that stands in for a missing tenant and for a missing service. */
module Defaults {
  import opened Options

  const GLOBAL_TENANT := "_global"

  function ServiceKey(service: Option<string>): (key: string)
    ensures service == Some(key) || (service == None && key == "_global")
  {
    service.GetOr(GLOBAL_TENANT)
  }
}
