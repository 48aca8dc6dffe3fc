/**
 The options object of the checker and its validation (`validateOptions`).
 Validation runs a fixed sequence of checks and fails with the first one
 that does not hold.
 */
module Config {
  import opened Wrappers

  /**
   The options accepted by `checkCopyrightHeaders` and `updateCopyrightHeaders`.
   `firstYear` is `None` when the field is absent; `exclusions` and `quiet`
   only steer the directory walk and the console report, which the model
   takes as given.
   */
  datatype Options = Options(
    extensions: seq<string>,
    exclusions: seq<string>,
    firstYear: Option<int>,
    headerText: string,
    rootDir: string,
    quiet: bool)

  /** The errors `validateOptions` throws, in the order it checks for them. */
  datatype ConfigError = InvalidFirstYear | NoExtensions | NoRootDirectory | NoLicenseText

  /** The message carried by the thrown `Error`. */
  function Message(e: ConfigError): string {
    match e
    case InvalidFirstYear => "Invalid first year"
    case NoExtensions => "No extensions provided"
    case NoRootDirectory => "No root directory provided"
    case NoLicenseText => "No license text provided"
  }

  /** Position of each check in the validation sequence. */
  function Rank(e: ConfigError): nat {
    match e
    case InvalidFirstYear => 0
    case NoExtensions => 1
    case NoRootDirectory => 2
    case NoLicenseText => 3
  }

  /** JavaScript truthiness of the optional `firstYear` number: present and non-zero. */
  predicate FirstYearSet(firstYear: Option<int>) {
    firstYear.Some? && firstYear.value != 0
  }

  /** The condition each check rejects, taken on its own. */
  predicate Violates(o: Options, currentYear: int, e: ConfigError) {
    match e
    case InvalidFirstYear =>
      FirstYearSet(o.firstYear) && !(1900 < o.firstYear.value <= currentYear)
    case NoExtensions => |o.extensions| == 0
    case NoRootDirectory => |o.rootDir| == 0
    case NoLicenseText => |o.headerText| == 0
  }

  /**
   `validateOptions`: succeeds exactly when no check is violated, and
   otherwise fails with the earliest violated check in the fixed order.
   */
  function Validate(o: Options, currentYear: int): (r: Result<(), ConfigError>)
    ensures r.Success? <==> forall e :: !Violates(o, currentYear, e)
    ensures r.Failure? ==>
      && Violates(o, currentYear, r.error)
      && forall e :: Rank(e) < Rank(r.error) ==> !Violates(o, currentYear, e)
  {
    if FirstYearSet(o.firstYear) && !(1900 < o.firstYear.value <= currentYear) then
      assert Violates(o, currentYear, InvalidFirstYear);
      Failure(InvalidFirstYear)
    else if |o.extensions| == 0 then
      assert Violates(o, currentYear, NoExtensions);
      Failure(NoExtensions)
    else if |o.rootDir| == 0 then
      assert Violates(o, currentYear, NoRootDirectory);
      Failure(NoRootDirectory)
    else if |o.headerText| == 0 then
      assert Violates(o, currentYear, NoLicenseText);
      Failure(NoLicenseText)
    else
      Success(())
  }

  /** The four messages are pairwise different, so the message identifies the failed check. */
  lemma MessagesDistinct(e1: ConfigError, e2: ConfigError)
    ensures Message(e1) == Message(e2) ==> e1 == e2
  {
  }

  /** A first year of 0 or an absent first year is never rejected, whatever the current year. */
  lemma UnsetFirstYearSkipsCheck(o: Options, currentYear: int)
    requires o.firstYear == None || o.firstYear == Some(0)
    ensures Validate(o, currentYear) != Failure(InvalidFirstYear)
  {
  }

  /** When validation passes, a set first year lies in (1900, currentYear]. */
  lemma ValidFirstYearInRange(o: Options, currentYear: int)
    requires Validate(o, currentYear).Success?
    requires FirstYearSet(o.firstYear)
    ensures 1900 < o.firstYear.value <= currentYear
  {
    assert !Violates(o, currentYear, InvalidFirstYear);
  }
}
