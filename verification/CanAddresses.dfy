/** The two addresses that belong to nobody (SAE J1939-81). */
module CanAddresses {
  const NULL_ADDRESS: nat := 254
  const BROADCAST: nat := 255
}
