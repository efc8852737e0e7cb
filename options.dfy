/**
 * The options record of selpg and its validation (processArgs): a fixed-order
 * chain of guards over the already-parsed flags, followed by the guard on the
 * positional arguments, which may name the input file.
 */
module Options {

  /** The flag values after parsing; inputFile is empty for standard input. */
  datatype SelpgArgs = SelpgArgs(
    startPage: int,
    endPage: int,
    pageLength: int,
    formFeed: bool,
    destination: string,
    inputFile: string)

  /** One error per guard, in the order the guards are tried. */
  datatype ArgError =
    | InvalidStartPage
    | InvalidEndPage
    | EndBeforeStart
    | InvalidPageLength
    | ConflictingDelimiters
    | TooManyInputFiles

  datatype Result<T, E> = Ok(value: T) | Err(error: E)

  /** The default of --l, the number of lines per page. */
  const DefaultPageLength: int := 72

  /** The raw token whose presence means that --l was given explicitly. */
  const LengthFlag: string := "--l"

  predicate MentionsLengthFlag(allArgs: seq<string>)
  {
    LengthFlag in allArgs
  }

  /** The scan of the raw argument tokens for the literal "--l" (the findL closure). */
  method FindL(allArgs: seq<string>) returns (found: bool)
    ensures found <==> MentionsLengthFlag(allArgs)
    ensures found <==> exists i :: 0 <= i < |allArgs| && allArgs[i] == "--l"
  {
    var i := 0;
    while i < |allArgs|
      invariant 0 <= i <= |allArgs|
      invariant forall k :: 0 <= k < i ==> allArgs[k] != LengthFlag
    {
      if allArgs[i] == LengthFlag {
        return true;
      }
      i := i + 1;
    }
    return false;
  }

  /**
   * processArgs: the option guards in their switch order, then the count of
   * positional arguments; on success the single positional argument, if
   * there is one, becomes the input file.
   */
  function ProcessArgs(a: SelpgArgs, nonFlags: seq<string>, allArgs: seq<string>): (r: Result<SelpgArgs, ArgError>)
    ensures r.Ok? ==> ValidRequest(r.value)
  {
    if a.startPage < 1 then Err(InvalidStartPage)
    else if a.endPage < 1 then Err(InvalidEndPage)
    else if a.endPage < a.startPage then Err(EndBeforeStart)
    else if a.pageLength < 1 then Err(InvalidPageLength)
    else if a.formFeed && (a.pageLength != DefaultPageLength || MentionsLengthFlag(allArgs)) then Err(ConflictingDelimiters)
    else if |nonFlags| > 1 then Err(TooManyInputFiles)
    else if |nonFlags| == 1 then Ok(a.(inputFile := nonFlags[0]))
    else Ok(a)
  }

  /** What a validated request guarantees to the page selector. */
  predicate ValidRequest(a: SelpgArgs)
  {
    && 1 <= a.startPage <= a.endPage
    && 1 <= a.pageLength
    && (a.formFeed ==> a.pageLength == DefaultPageLength)
  }

  /** Reference table of the guards: the condition under which each error applies. */
  predicate Violated(e: ArgError, a: SelpgArgs, nonFlags: seq<string>, allArgs: seq<string>)
  {
    match e
    case InvalidStartPage => a.startPage < 1
    case InvalidEndPage => a.endPage < 1
    case EndBeforeStart => a.endPage < a.startPage
    case InvalidPageLength => a.pageLength < 1
    case ConflictingDelimiters =>
      a.formFeed && (a.pageLength != DefaultPageLength || MentionsLengthFlag(allArgs))
    case TooManyInputFiles => |nonFlags| > 1
  }

  /** The position of each guard in the order they are tried. */
  function Rank(e: ArgError): nat
  {
    match e
    case InvalidStartPage => 0
    case InvalidEndPage => 1
    case EndBeforeStart => 2
    case InvalidPageLength => 3
    case ConflictingDelimiters => 4
    case TooManyInputFiles => 5
  }

  /** e applies and no guard tried before it does. */
  predicate FirstViolation(e: ArgError, a: SelpgArgs, nonFlags: seq<string>, allArgs: seq<string>)
  {
    Violated(e, a, nonFlags, allArgs) &&
    forall e' :: Rank(e') < Rank(e) ==> !Violated(e', a, nonFlags, allArgs)
  }

  /** Validation reports exactly the first failing guard, and succeeds exactly when none fails. */
  lemma ProcessArgsReportsFirstViolation(a: SelpgArgs, nonFlags: seq<string>, allArgs: seq<string>)
    ensures forall e :: ProcessArgs(a, nonFlags, allArgs) == Err(e) <==> FirstViolation(e, a, nonFlags, allArgs)
    ensures ProcessArgs(a, nonFlags, allArgs).Ok? <==> forall e :: !Violated(e, a, nonFlags, allArgs)
  {
    var r := ProcessArgs(a, nonFlags, allArgs);
    forall e ensures r == Err(e) <==> FirstViolation(e, a, nonFlags, allArgs) {
      if r.Err? {
        // two first violations have the same rank, hence are the same guard
        FirstViolationOf(r.error, a, nonFlags, allArgs);
      }
    }
    if r.Err? {
      FirstViolationOf(r.error, a, nonFlags, allArgs);
    }
  }

  /** The error validation reports is a first violation. */
  lemma FirstViolationOf(e: ArgError, a: SelpgArgs, nonFlags: seq<string>, allArgs: seq<string>)
    requires ProcessArgs(a, nonFlags, allArgs) == Err(e)
    ensures FirstViolation(e, a, nonFlags, allArgs)
  {
    forall e' | Rank(e') < Rank(e) ensures !Violated(e', a, nonFlags, allArgs) {
      match e'
      case InvalidStartPage =>
      case InvalidEndPage =>
      case EndBeforeStart =>
      case InvalidPageLength =>
      case ConflictingDelimiters =>
      case TooManyInputFiles =>
    }
  }

  /**
   * On success, only inputFile may change: it becomes the single positional
   * argument when there is exactly one, and stays as it was when there is none.
   */
  lemma ProcessArgsKeepsFields(a: SelpgArgs, nonFlags: seq<string>, allArgs: seq<string>)
    requires ProcessArgs(a, nonFlags, allArgs).Ok?
    ensures var b := ProcessArgs(a, nonFlags, allArgs).value;
      && |nonFlags| <= 1
      && b.startPage == a.startPage && b.endPage == a.endPage
      && b.pageLength == a.pageLength && b.formFeed == a.formFeed
      && b.destination == a.destination
      && (|nonFlags| == 1 ==> b.inputFile == nonFlags[0])
      && (|nonFlags| == 0 ==> b.inputFile == a.inputFile)
  {
  }

  /** A one-page-wide empty range start == end is accepted; only end < start is refused. */
  lemma EqualStartAndEndAccepted(a: SelpgArgs, nonFlags: seq<string>, allArgs: seq<string>)
    requires 1 <= a.startPage && 1 <= a.endPage && 1 <= a.pageLength && |nonFlags| <= 1
    requires a.formFeed ==> a.pageLength == DefaultPageLength && !MentionsLengthFlag(allArgs)
    ensures a.endPage == a.startPage ==> ProcessArgs(a, nonFlags, allArgs).Ok?
    ensures a.endPage < a.startPage ==> ProcessArgs(a, nonFlags, allArgs) == Err(EndBeforeStart)
  {
  }

  /**
   * With -f and valid page numbers and length, validation fails with the
   * delimiter conflict exactly when the page length is not the default or the
   * raw token "--l" appears, even with the default value 72.
   */
  lemma FormFeedConflict(a: SelpgArgs, nonFlags: seq<string>, allArgs: seq<string>)
    requires a.formFeed && 1 <= a.startPage <= a.endPage && 1 <= a.pageLength
    ensures ProcessArgs(a, nonFlags, allArgs) == Err(ConflictingDelimiters)
        <==> (a.pageLength != 72 || exists i :: 0 <= i < |allArgs| && allArgs[i] == "--l")
  {
  }

  /** selpg --s 0 --e 5: the start page is reported, whatever else is wrong. */
  lemma StartPageZeroRejected(a: SelpgArgs, nonFlags: seq<string>, allArgs: seq<string>)
    requires a.startPage == 0 && a.endPage == 5
    ensures ProcessArgs(a, nonFlags, allArgs) == Err(InvalidStartPage)
  {
  }

  /** selpg --s 3 --e 2: the end page precedes the start page. */
  lemma EndBeforeStartRejected(a: SelpgArgs, nonFlags: seq<string>, allArgs: seq<string>)
    requires a.startPage == 3 && a.endPage == 2
    ensures ProcessArgs(a, nonFlags, allArgs) == Err(EndBeforeStart)
  {
  }
}
