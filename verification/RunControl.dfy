/** The states a core can be found in. */
module RunControl {
  datatype CoreState = Running | Halted | Sleeping | Lockup | InReset
}
