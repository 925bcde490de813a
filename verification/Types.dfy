/** Identifiers and small result types shared by every module. Identifiers are opaque: they are only ever compared. */
module Types {
  datatype CopyId = CopyId(text: string)
  datatype Isbn = Isbn(text: string)
  datatype UserId = UserId(text: string)
  datatype BranchId = BranchId(text: string)
  datatype TransferId = TransferId(text: string)
  datatype ReservationId = ReservationId(text: string)
  datatype TransactionId = TransactionId(text: string)

  datatype Option<+T> = None | Some(value: T)

  datatype Result<+T, +E> = Ok(value: T) | Err(error: E)

  lemma {:induction false} SubsetIsSmaller<T>(a: set<T>, b: set<T>)
    requires a <= b
    ensures |a| <= |b|
  {
    if a != {} {
      var x :| x in a;
      SubsetIsSmaller(a - {x}, b - {x});
    }
  }
}
