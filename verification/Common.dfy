/** What several parts of the model share. */
module Common {

  datatype Option<+T> = None | Some(value: T)

  function One(b: bool): nat {
    if b then 1 else 0
  }

  predicate VlanValid(vid: int) {
    0 < vid < 4095
  }
}
