/** Finding a backend by its address, as both failover managers do when they book a
    failure: the first one that has it. */
module Addresses {
  function FirstWith(addresses: seq<string>, address: string): (i: nat)
    requires address in addresses
    ensures i < |addresses| && addresses[i] == address
    ensures forall j :: 0 <= j < i ==> addresses[j] != address
  {
    if addresses[0] == address then 0 else FirstWith(addresses[1..], address) + 1
  }
}
