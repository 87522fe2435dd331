// A member of a set that has one.
module Sets {
  ghost function OneOf<T>(s: set<T>): (x: T)
    requires s != {}
    ensures x in s
  {
    var x :| x in s; x
  }
}
