/** How far a converter that works through a picture block by block has come. */
module Progress {
  /** How far a pass has come: columns below x0 are done; of columns x0 .. x1, the rows above i are done,
      and rows i .. i + rows up to column j. */
  datatype Front = Front(x0: nat, x1: nat, i: nat, rows: nat, j: nat) {
    predicate Done(x: nat, y: nat) { x < x0 || (x < x1 && (y < i || (y < i + rows && x < j))) }
  }
}
