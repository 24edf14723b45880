/** The two filter stages over raw operations. A stage receives
    `take(error, rawOp)`, either passes the operation on to its downstream
    consumer (`give`) and answers what the consumer answered, or drops it and
    answers `true` ("keep sending"); an error is rethrown. The downstream
    consumer is a function from the operation to its answer. */
module RawFilters {
  import opened Wrappers
  import opened Moments
  import opened Blockchain

  /** What a stage is handed: a transport error or an operation. */
  datatype Input = ErrorInput(error: ChainError) | OpInput(rawOp: RawOperation)

  /** What `take` does: rethrow the error, or return the continue flag, having
      passed `passedOn` downstream (None: the consumer was not called). */
  datatype Outcome =
    | Rethrown(error: ChainError)
    | Returned(keepGoing: bool, passedOn: Option<RawOperation>)

  // ---------------------------------------------------------------- number filter

  datatype Comparison = Lt | Le | Gt | Ge   // "<", "<=", ">", ">="

  /** `new OperationNumberFilter(mode, tn)`: both are fixed from then on. */
  datatype OperationNumberFilter = OperationNumberFilter(mode: Comparison, tn: Moment)

  /** Whether the number filter lets an operation at moment `m` through,
      spelled as the source's chain of tests. */
  predicate NumberFilterPasses(f: OperationNumberFilter, m: Moment)
  {
    || (f.mode == Lt && IsLesserThan(m, f.tn))
    || (f.mode == Le && (IsLesserThan(m, f.tn) || IsEqual(m, f.tn)))
    || (f.mode == Gt && IsGreaterThan(m, f.tn))
    || (f.mode == Ge && (IsGreaterThan(m, f.tn) || IsEqual(m, f.tn)))
  }

  /** `OperationNumberFilter.take`: forwards exactly the operations whose
      chain position stands in the configured relation to the bound. */
  function TakeByNumber(f: OperationNumberFilter, input: Input, give: RawOperation -> bool): (out: Outcome)
    ensures input.ErrorInput? <==> out.Rethrown?
    ensures input.ErrorInput? ==> out.error == input.error
    ensures input.OpInput? ==> (out.passedOn.Some? <==> NumberFilterPasses(f, MomentOf(input.rawOp)))
    ensures input.OpInput? ==>
      var m := MomentOf(input.rawOp);
      && (f.mode == Lt ==> (out.passedOn.Some? <==> IsLesserThan(m, f.tn)))
      && (f.mode == Le ==> (out.passedOn.Some? <==> !IsGreaterThan(m, f.tn)))
      && (f.mode == Gt ==> (out.passedOn.Some? <==> IsGreaterThan(m, f.tn)))
      && (f.mode == Ge ==> (out.passedOn.Some? <==> !IsLesserThan(m, f.tn)))
    ensures out.Returned? && out.passedOn.Some? ==>
      out.passedOn.value == input.rawOp && out.keepGoing == give(input.rawOp)
    ensures out.Returned? && out.passedOn.None? ==> out.keepGoing
  {
    match input
    case ErrorInput(e) => Rethrown(e)
    case OpInput(rawOp) =>
      var tn := MomentOf(rawOp);
      if f.mode == Lt && IsLesserThan(tn, f.tn) then Returned(give(rawOp), Some(rawOp))
      else if f.mode == Le && (IsLesserThan(tn, f.tn) || IsEqual(tn, f.tn)) then Returned(give(rawOp), Some(rawOp))
      else if f.mode == Gt && IsGreaterThan(tn, f.tn) then Returned(give(rawOp), Some(rawOp))
      else if f.mode == Ge && (IsGreaterThan(tn, f.tn) || IsEqual(tn, f.tn)) then Returned(give(rawOp), Some(rawOp))
      else Returned(true, None)
  }

  /** Because the order is total, "<" and ">=" split the operations between
      them, and so do ">" and "<=": every operation passes exactly one filter
      of each pair. */
  lemma ComplementaryModes(tn: Moment, rawOp: RawOperation, give: RawOperation -> bool)
    ensures TakeByNumber(OperationNumberFilter(Lt, tn), OpInput(rawOp), give).passedOn.Some?
        <==> TakeByNumber(OperationNumberFilter(Ge, tn), OpInput(rawOp), give).passedOn.None?
    ensures TakeByNumber(OperationNumberFilter(Gt, tn), OpInput(rawOp), give).passedOn.Some?
        <==> TakeByNumber(OperationNumberFilter(Le, tn), OpInput(rawOp), give).passedOn.None?
  {
    Trichotomy(MomentOf(rawOp), tn);
  }

  // ---------------------------------------------------------------- type filter

  /** `new OperationTypeFilter(typeName)`: the name is fixed from then on. */
  datatype OperationTypeFilter = OperationTypeFilter(typeName: string)

  /** `OperationTypeFilter.take`: forwards exactly the operations whose type
      name, `rawOp[1].op[0]`, is the configured one. */
  function TakeByType(f: OperationTypeFilter, input: Input, give: RawOperation -> bool): (out: Outcome)
    ensures input.ErrorInput? <==> out.Rethrown?
    ensures input.ErrorInput? ==> out.error == input.error
    ensures input.OpInput? ==> (out.passedOn.Some? <==> input.rawOp.op.typeName == f.typeName)
    ensures out.Returned? && out.passedOn.Some? ==>
      out.passedOn.value == input.rawOp && out.keepGoing == give(input.rawOp)
    ensures out.Returned? && out.passedOn.None? ==> out.keepGoing
  {
    match input
    case ErrorInput(e) => Rethrown(e)
    case OpInput(rawOp) =>
      if rawOp.op.typeName == f.typeName then Returned(give(rawOp), Some(rawOp))
      else Returned(true, None)
  }

  /** Filtering by type looks only at the type name: two operations with the
      same type name are both passed on or both dropped, whatever their
      payload, position or transaction. */
  lemma TypeFilterLooksOnlyAtTypeName(f: OperationTypeFilter, a: RawOperation, b: RawOperation, give: RawOperation -> bool)
    requires a.op.typeName == b.op.typeName
    ensures TakeByType(f, OpInput(a), give).passedOn.Some? == TakeByType(f, OpInput(b), give).passedOn.Some?
  {
  }
}
