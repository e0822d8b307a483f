/**
 * Jobs, array jobs and array tasks.
 *
 * A job is built from an ordered list of attribute assignments applied to a
 * record whose `job_type` starts as `JOB`. `min_nodes=` decodes the `k`/`m`
 * size suffixes, `array=` turns a job into an array job, `reason` is visible
 * only while the job is pending, and validation is a list of (attribute,
 * message) errors produced by conditional rules. An array task is a view that
 * forces `min_nodes` to 1 and `job_type` to `ARRAY_TASK`, takes partition,
 * validity and script path from its array job, and everything else from its
 * own inner job record.
 */
module Jobs {
  import opened Wrappers
  import opened Values
  import opened RangeExpander
  import Partitions

  const States: seq<string> := ["PENDING", "RUNNING", "CANCELLING", "CANCELLED", "COMPLETED", "FAILED"]
  const Reasons: seq<string> := ["WaitingForScheduling", "Priority", "Resources"]
  const JobTypes: seq<string> := ["JOB", "ARRAY_JOB"]

  /** The stored `min_nodes`: never assigned, a decoded count, or undecodable text. */
  datatype MinNodes = Unset | Count(n: int) | Raw(text: string)

  datatype Job = Job(
    id: Option<string>,
    jobType: Option<string>,
    partition: Option<Partitions.Partition>,
    scriptName: Option<string>,
    scriptProvided: Value,
    state: Option<string>,
    storedReason: Option<string>,
    storedArguments: Value,
    minNodes: MinNodes,
    arrayRange: Option<Range>,
    arrayIndex: Option<int>,
    arrayJob: Option<Job>,
    // Per-node requirements read by the allocation registry; their setters
    // live outside the job model.
    cpusPerNode: Option<int>,
    gpusPerNode: Option<int>,
    memoryPerNode: Option<int>)

  /** One entry of the parameter hash given to `Job.new`. */
  datatype Assignment =
    | SetId(newId: Option<string>)
    | SetJobType(newJobType: Option<string>)
    | SetPartition(newPartition: Option<Partitions.Partition>)
    | SetScriptName(newScriptName: Option<string>)
    | SetScriptProvided(newScriptProvided: Value)
    | SetState(newState: Option<string>)
    | SetReason(newReason: Option<string>)
    | SetArguments(newArguments: Value)
    | SetMinNodes(rawMinNodes: string)
    | SetArray(newRange: Option<Range>)
    | SetArrayIndex(newArrayIndex: Option<int>)
    | SetArrayJob(newArrayJob: Option<Job>)

  /** A record with every attribute `nil`. */
  const Blank: Job := Job(None, None, None, None, Nil, None, None, Nil, Unset, None, None, None, None, None, None)

  // ---------------------------------------------------------------------------
  // min_nodes

  datatype Unit = Ones | Kilo | Mega

  function Suffix(u: Unit): string {
    match u
    case Ones => ""
    case Kilo => "k"
    case Mega => "m"
  }

  function Factor(u: Unit): nat {
    match u
    case Ones => 1
    case Kilo => 1024
    case Mega => 1048576
  }

  /**
   * The texts `min_nodes=` decodes: one or more digits, a unit suffix, and
   * optionally one final newline (Ruby's `\Z` also matches before one).
   */
  function Literal(digits: string, u: Unit, newline: bool): string {
    digits + Suffix(u) + (if newline then "\n" else "")
  }

  function StripFinalNewline(s: string): (r: string)
    ensures r == s || (|s| > 0 && s[|s| - 1] == '\n' && r == s[..|s| - 1])
  {
    if |s| > 0 && s[|s| - 1] == '\n' then s[..|s| - 1] else s
  }

  /**
   * `min_nodes=(raw)`, given `raw.to_s`. It never fails: text that is not a
   * count literal is stored unchanged, to be rejected by validation.
   */
  function DecodeMinNodes(raw: string): (r: MinNodes)
    ensures !r.Unset?
    ensures r.Raw? ==> r.text == raw
    ensures r.Count? ==> r.n >= 0
  {
    var body := StripFinalNewline(raw);
    if |body| >= 2 && body[|body| - 1] == 'k' && AllDigits(body[..|body| - 1]) then
      Count(DigitsValue(body[..|body| - 1]) * 1024)
    else if |body| >= 2 && body[|body| - 1] == 'm' && AllDigits(body[..|body| - 1]) then
      Count(DigitsValue(body[..|body| - 1]) * 1048576)
    else if |body| >= 1 && AllDigits(body) then
      Count(DigitsValue(body))
    else
      Raw(raw)
  }

  /** Stripping the optional newline of a literal leaves its digits and suffix. */
  lemma StripLiteral(digits: string, u: Unit, newline: bool)
    requires |digits| >= 1 && AllDigits(digits)
    ensures StripFinalNewline(Literal(digits, u, newline)) == digits + Suffix(u)
  {
    var body := digits + Suffix(u);
    if newline {
      assert Literal(digits, u, newline) == body + "\n";
      assert (body + "\n")[..|body|] == body;
    } else {
      assert Literal(digits, u, newline) == body;
      assert body[|body| - 1] != '\n' by {
        if u == Ones {
          assert body[|body| - 1] == digits[|digits| - 1];
        }
      }
    }
  }

  /** A literal without unit suffix decodes to its digits' value. */
  lemma DecodeOnes(digits: string, newline: bool)
    requires |digits| >= 1 && AllDigits(digits)
    ensures DecodeMinNodes(Literal(digits, Ones, newline)) == Count(DigitsValue(digits))
  {
    StripLiteral(digits, Ones, newline);
    assert digits + Suffix(Ones) == digits;
    assert IsDigit(digits[|digits| - 1]);
  }

  /** A literal with a unit suffix decodes to its digits' value times the unit's factor. */
  lemma DecodeSuffixed(digits: string, u: Unit, newline: bool)
    requires |digits| >= 1 && AllDigits(digits) && u != Ones
    ensures DecodeMinNodes(Literal(digits, u, newline)) == Count(DigitsValue(digits) * Factor(u))
  {
    StripLiteral(digits, u, newline);
    var body := digits + Suffix(u);
    assert body[..|body| - 1] == digits;
    assert body[|body| - 1] == (if u == Kilo then 'k' else 'm');
  }

  /** Every count literal decodes to its digits' value times the unit's factor. */
  lemma DecodeLiteral(digits: string, u: Unit, newline: bool)
    requires |digits| >= 1 && AllDigits(digits)
    ensures DecodeMinNodes(Literal(digits, u, newline)) == Count(DigitsValue(digits) * Factor(u))
  {
    if u == Ones {
      DecodeOnes(digits, newline);
    } else {
      DecodeSuffixed(digits, u, newline);
    }
  }

  /** Exactly the texts that are no count literal are stored raw. */
  lemma DecodeRawIff(raw: string)
    ensures DecodeMinNodes(raw).Raw? <==>
      forall d, u, nl :: |d| >= 1 && AllDigits(d) ==> Literal(d, u, nl) != raw
  {
    if DecodeMinNodes(raw).Raw? {
      forall d, u, nl | |d| >= 1 && AllDigits(d)
        ensures Literal(d, u, nl) != raw
      {
        DecodeLiteral(d, u, nl);
      }
    } else {
      var body := StripFinalNewline(raw);
      var nl := body != raw;
      var u, d;
      if |body| >= 2 && body[|body| - 1] == 'k' && AllDigits(body[..|body| - 1]) {
        u, d := Kilo, body[..|body| - 1];
      } else if |body| >= 2 && body[|body| - 1] == 'm' && AllDigits(body[..|body| - 1]) {
        u, d := Mega, body[..|body| - 1];
      } else {
        u, d := Ones, body;
      }
      assert body == d + Suffix(u);
      assert Literal(d, u, nl) == raw;
    }
  }

  lemma DecodeExamples()
    ensures DecodeMinNodes("2k") == Count(2048)
    ensures DecodeMinNodes("3m") == Count(3145728)
    ensures DecodeMinNodes("7") == Count(7)
    ensures DecodeMinNodes("abc") == Raw("abc")
  {
    assert Literal("2", Kilo, false) == "2k";
    DecodeLiteral("2", Kilo, false);
    assert Literal("3", Mega, false) == "3m";
    DecodeLiteral("3", Mega, false);
    assert Literal("7", Ones, false) == "7";
    DecodeLiteral("7", Ones, false);
  }

  /** `max_nodes`: a placeholder that always answers `min_nodes`. */
  function MaxNodes(job: Job): MinNodes {
    job.minNodes
  }

  // ---------------------------------------------------------------------------
  // Construction

  /** Applies one assignment, through the attribute's setter. */
  function Assign(job: Job, a: Assignment): Job {
    match a
    case SetId(v) => job.(id := v)
    case SetJobType(v) => job.(jobType := v)
    case SetPartition(v) => job.(partition := v)
    case SetScriptName(v) => job.(scriptName := v)
    case SetScriptProvided(v) => job.(scriptProvided := v)
    case SetState(v) => job.(state := v)
    case SetReason(v) => job.(storedReason := v)
    case SetArguments(v) => job.(storedArguments := v)
    case SetMinNodes(raw) => job.(minNodes := DecodeMinNodes(raw))
    case SetArray(r) => SetArrayRange(job, r)
    case SetArrayIndex(v) => job.(arrayIndex := v)
    case SetArrayJob(v) => job.(arrayJob := v)
  }

  function Apply(job: Job, params: seq<Assignment>): Job
    decreases |params|
  {
    if |params| == 0 then job else Apply(Assign(job, params[0]), params[1..])
  }

  /** `Job.new(params)`: `job_type` is set to `JOB`, then the params are assigned in order. */
  function NewJob(params: seq<Assignment>): Job {
    Apply(Blank.(jobType := Some("JOB")), params)
  }

  /** An assignment that can change `job_type`. */
  predicate ChangesType(a: Assignment) {
    a.SetJobType? || (a.SetArray? && a.newRange.Some?)
  }

  lemma {:induction false} ApplyKeepsType(job: Job, params: seq<Assignment>)
    requires forall i :: 0 <= i < |params| ==> !ChangesType(params[i])
    ensures Apply(job, params).jobType == job.jobType
    decreases |params|
  {
    if |params| > 0 {
      ApplyKeepsType(Assign(job, params[0]), params[1..]);
    }
  }

  /** A new job is a `JOB` unless a parameter sets its type or its array. */
  lemma NewJobIsPlainByDefault(params: seq<Assignment>)
    requires forall i :: 0 <= i < |params| ==> !ChangesType(params[i])
    ensures NewJob(params).jobType == Some("JOB")
  {
    ApplyKeepsType(Blank.(jobType := Some("JOB")), params);
  }

  /**
   * Parameters are assigned in order, so a `job_type` given after `array`
   * overrides the `ARRAY_JOB` type and leaves a `JOB` carrying a range.
   */
  lemma LaterJobTypeWins(r: Range)
    ensures NewJob([SetArray(Some(r)), SetJobType(Some("JOB"))]).jobType == Some("JOB")
    ensures NewJob([SetArray(Some(r)), SetJobType(Some("JOB"))]).arrayRange == Some(r)
    ensures NewJob([SetJobType(Some("JOB")), SetArray(Some(r))]).jobType == Some("ARRAY_JOB")
  {
    var start := Blank.(jobType := Some("JOB"));
    ApplyTwo(start, SetArray(Some(r)), SetJobType(Some("JOB")));
    ApplyTwo(start, SetJobType(Some("JOB")), SetArray(Some(r)));
  }

  lemma ApplyTwo(job: Job, a: Assignment, b: Assignment)
    ensures Apply(job, [a, b]) == Assign(Assign(job, a), b)
  {
    assert [a, b][1..] == [b];
    assert [b][1..] == [];
    assert Apply(job, [a, b]) == Apply(Assign(job, a), [b]);
    assert Apply(Assign(job, a), [b]) == Apply(Assign(Assign(job, a), b), []);
  }

  /** `array=(range)`: `nil` is ignored; anything else makes the job an array job. */
  function SetArrayRange(job: Job, range: Option<Range>): (r: Job)
    ensures range.None? ==> r == job
    ensures range.Some? ==> r == job.(jobType := Some("ARRAY_JOB"), arrayRange := range)
  {
    match range
    case None => job
    case Some(_) => job.(jobType := Some("ARRAY_JOB"), arrayRange := range)
  }

  /** `min_nodes=` followed by `max_nodes` reads back the decoded value. */
  lemma MaxNodesAfterAssignment(job: Job, raw: string)
    ensures MaxNodes(Assign(job, SetMinNodes(raw))) == DecodeMinNodes(raw)
  {
  }

  // ---------------------------------------------------------------------------
  // Readers

  /** `reason`: the stored reason while the job is pending, `nil` otherwise. */
  function Reason(job: Job): (r: Option<string>)
    ensures job.state == Some("PENDING") ==> r == job.storedReason
    ensures job.state != Some("PENDING") ==> r == None
  {
    if job.state == Some("PENDING") then job.storedReason else None
  }

  /** `arguments`: always a list (`Kernel#Array` of the stored value). */
  function Arguments(job: Job): seq<Value> {
    ArrayOf(job.storedArguments)
  }

  /** The arguments read back what was assigned, wrapped into a list when needed. */
  lemma ArgumentsAfterAssignment(job: Job, v: Value)
    ensures v.Nil? ==> Arguments(Assign(job, SetArguments(v))) == []
    ensures v.List? ==> Arguments(Assign(job, SetArguments(v))) == v.items
    ensures v.Str? || v.Int? || v.Sym? || v.Bool? ==> Arguments(Assign(job, SetArguments(v))) == [v]
  {
  }

  /** `id.to_s`. */
  function IdText(id: Option<string>): string {
    id.GetOr("")
  }

  /** `File.join(a, b)`: exactly one `/` between the parts. */
  function Join(a: string, b: string): string {
    var slashEnd := |a| > 0 && a[|a| - 1] == '/';
    var slashStart := |b| > 0 && b[0] == '/';
    if slashEnd && slashStart then a + b[1..]
    else if slashEnd || slashStart then a + b
    else a + "/" + b
  }

  /** `script_path`: `<job_dir>/<id>/job-script`, with the job directory a parameter. */
  function ScriptPath(jobDir: string, job: Job): string {
    Join(Join(jobDir, IdText(job.id)), "job-script")
  }

  /** The job directory with a trailing `/`. */
  function DirPrefix(jobDir: string): string {
    if |jobDir| > 0 && jobDir[|jobDir| - 1] == '/' then jobDir else jobDir + "/"
  }

  /** For an id without `/`, the script path is the directory, the id's segment, then `job-script`. */
  lemma ScriptPathShape(jobDir: string, job: Job)
    requires '/' !in IdText(job.id)
    ensures ScriptPath(jobDir, job) ==
      DirPrefix(jobDir) + (if IdText(job.id) == "" then "" else IdText(job.id) + "/") + "job-script"
  {
    var t := IdText(job.id);
    var p := DirPrefix(jobDir);
    assert Join(jobDir, t) == p + t by {
      if |t| > 0 {
        assert t[0] in t;
      }
    }
    if |t| > 0 {
      assert (p + t)[|p + t| - 1] == t[|t| - 1];
      assert t[|t| - 1] in t;
    }
  }

  /** Jobs with different ids (free of `/`) get different script paths. */
  lemma ScriptPathInjective(jobDir: string, a: Job, b: Job)
    requires '/' !in IdText(a.id) && '/' !in IdText(b.id)
    requires ScriptPath(jobDir, a) == ScriptPath(jobDir, b)
    ensures IdText(a.id) == IdText(b.id)
  {
    ScriptPathShape(jobDir, a);
    ScriptPathShape(jobDir, b);
    var p := DirPrefix(jobDir);
    var ta := IdText(a.id);
    var tb := IdText(b.id);
    var ma := if ta == "" then "" else ta + "/";
    var mb := if tb == "" then "" else tb + "/";
    var path := ScriptPath(jobDir, a);
    assert path == p + ma + "job-script" == p + mb + "job-script";
    assert |ma| == |mb|;
    assert ma == path[|p|..|p| + |ma|];
    assert mb == path[|p|..|p| + |mb|];
    if ta != "" {
      assert ta == ma[..|ma| - 1] == mb[..|mb| - 1] == tb;
    }
  }

  /** What `hash` digests: the class and the id. */
  function HashInput(job: Job): (string, Option<string>) {
    ("Job", job.id)
  }

  /** Two jobs hash alike exactly when their ids agree. */
  lemma HashIsById(a: Job, b: Job)
    ensures HashInput(a) == HashInput(b) <==> a.id == b.id
  {
  }

  // ---------------------------------------------------------------------------
  // Validation

  /** `validates attr, presence: true` on a string attribute. */
  function PresenceErrors(attribute: string, v: Option<string>): (errors: seq<ValidationError>)
    ensures errors == [] <==> (v.Some? && !IsBlank(v.value))
    ensures errors != [] ==> errors == [AttrError(attribute, BlankMessage)]
  {
    if v.None? || IsBlank(v.value) then [AttrError(attribute, BlankMessage)] else []
  }

  /** `validates attr, inclusion: {within: allowed}`; `nil` passes only when `allowNil`. */
  function InclusionErrors(attribute: string, v: Option<string>, allowed: seq<string>, allowNil: bool): (errors: seq<ValidationError>)
    ensures errors == [] <==> (if v.None? then allowNil else v.value in allowed)
    ensures errors != [] ==> errors == [AttrError(attribute, InclusionMessage)]
  {
    if (if v.None? then allowNil else v.value in allowed) then [] else [AttrError(attribute, InclusionMessage)]
  }

  /** ActiveModel's integer syntax for strings: an optional sign, then digits. */
  predicate IntegerText(s: string) {
    if |s| > 0 && (s[0] == '+' || s[0] == '-') then |s| >= 2 && AllDigits(s[1..])
    else |s| >= 1 && AllDigits(s)
  }

  /**
   * The states of a scan of Ruby's `Float()` syntax: leading whitespace, an
   * optional sign, a digit run, optionally `.` and a digit run, optionally
   * `e` or `E`, a sign and a digit run, then trailing whitespace. A digit
   * run may hold single underscores between digits ("1_000").
   */
  datatype FloatState =
    | Lead        // only whitespace so far
    | Signed      // after the sign
    | IntDigits   // in the integer digits, after a digit
    | IntMark     // after an underscore in the integer digits
    | Point       // after the decimal point
    | FracDigits  // in the fraction digits, after a digit
    | FracMark    // after an underscore in the fraction digits
    | Exponent    // after `e` or `E`
    | ExpSigned   // after the exponent's sign
    | ExpDigits   // in the exponent digits, after a digit
    | ExpMark     // after an underscore in the exponent digits
    | Trail       // whitespace after a complete number
    | Rejected

  /** One character of the scan. */
  function FloatStep(q: FloatState, c: char): FloatState {
    match q
    case Lead =>
      if IsSpace(c) then Lead else if c == '+' || c == '-' then Signed else if IsDigit(c) then IntDigits else Rejected
    case Signed => if IsDigit(c) then IntDigits else Rejected
    case IntDigits =>
      if IsDigit(c) then IntDigits else if c == '_' then IntMark else if c == '.' then Point
      else if c == 'e' || c == 'E' then Exponent else if IsSpace(c) then Trail else Rejected
    case IntMark => if IsDigit(c) then IntDigits else Rejected
    case Point => if IsDigit(c) then FracDigits else Rejected
    case FracDigits =>
      if IsDigit(c) then FracDigits else if c == '_' then FracMark
      else if c == 'e' || c == 'E' then Exponent else if IsSpace(c) then Trail else Rejected
    case FracMark => if IsDigit(c) then FracDigits else Rejected
    case Exponent => if c == '+' || c == '-' then ExpSigned else if IsDigit(c) then ExpDigits else Rejected
    case ExpSigned => if IsDigit(c) then ExpDigits else Rejected
    case ExpDigits => if IsDigit(c) then ExpDigits else if c == '_' then ExpMark else if IsSpace(c) then Trail else Rejected
    case ExpMark => if IsDigit(c) then ExpDigits else Rejected
    case Trail => if IsSpace(c) then Trail else Rejected
    case Rejected => Rejected
  }

  /** The state after scanning `s` from `q`. */
  function FloatScan(q: FloatState, s: string): FloatState
    decreases |s|
  {
    if |s| == 0 then q else FloatScan(FloatStep(q, s[0]), s[1..])
  }

  /** The states in which a complete number has been read. */
  predicate FloatAccepting(q: FloatState) {
    q == IntDigits || q == FracDigits || q == ExpDigits || q == Trail
  }

  /**
   * The strings Ruby's `Float()` reads as a decimal number, which ActiveModel's
   * numericality rule takes for numbers ("2.0", "1e3", " 5", "1_000").
   */
  predicate FloatText(s: string) {
    FloatAccepting(FloatScan(Lead, s))
  }

  /** Digits keep the scan in the integer digits. */
  lemma {:induction false} DigitsStayInIntDigits(s: string)
    requires AllDigits(s)
    ensures FloatScan(IntDigits, s) == IntDigits
    decreases |s|
  {
    if |s| > 0 {
      assert IsDigit(s[0]);
      DigitsStayInIntDigits(s[1..]);
    }
  }

  /** Every text in ActiveModel's integer syntax is also a number to `Float()`. */
  lemma IntegerTextIsFloatText(s: string)
    ensures IntegerText(s) ==> FloatText(s)
  {
    if IntegerText(s) {
      var digits := if s[0] == '+' || s[0] == '-' then s[1..] else s;
      assert IsDigit(digits[0]);
      DigitsStayInIntDigits(digits[1..]);
      assert FloatScan(Lead, s) == FloatScan(IntDigits, digits[1..]);
    }
  }

  function IntegerTextValue(s: string): int
    requires IntegerText(s)
  {
    if s[0] == '+' then DigitsValue(s[1..])
    else if s[0] == '-' then -(DigitsValue(s[1..]) as int)
    else DigitsValue(s)
  }

  /** The `min_nodes` presence rule. */
  function MinNodesPresenceErrors(v: MinNodes): seq<ValidationError> {
    match v
    case Unset => [AttrError("min_nodes", BlankMessage)]
    case Count(_) => []
    case Raw(s) => if IsBlank(s) then [AttrError("min_nodes", BlankMessage)] else []
  }

  /**
   * The `min_nodes` numericality rule (integer, at least 1) as ActiveModel
   * applies it: a stored string is parsed with its integer syntax.
   */
  function NumericalityErrorsAsWritten(v: MinNodes): (errors: seq<ValidationError>)
    ensures errors == [] <==> (v.Count? && v.n >= 1) || (v.Raw? && IntegerText(v.text) && IntegerTextValue(v.text) >= 1)
    ensures v.Raw? && !FloatText(v.text) ==> errors == [AttrError("min_nodes", NotANumberMessage)]
    ensures v.Raw? && FloatText(v.text) && !IntegerText(v.text) ==> errors == [AttrError("min_nodes", NotAnIntegerMessage)]
    ensures |errors| <= 1
  {
    match v
    case Unset => [AttrError("min_nodes", NotANumberMessage)]
    case Count(n) => if n >= 1 then [] else [AttrError("min_nodes", BelowOneMessage)]
    case Raw(s) =>
      IntegerTextIsFloatText(s);
      if IntegerText(s) then
        if IntegerTextValue(s) >= 1 then [] else [AttrError("min_nodes", BelowOneMessage)]
      else if FloatText(s) then [AttrError("min_nodes", NotAnIntegerMessage)]
      else [AttrError("min_nodes", NotANumberMessage)]
  }

  /** A fraction, a whole number with a fraction, or a final newline: "must be an integer". */
  lemma FloatSyntaxMessages()
    ensures NumericalityErrorsAsWritten(Raw("1.5")) == [AttrError("min_nodes", NotAnIntegerMessage)]
    ensures NumericalityErrorsAsWritten(Raw("2.0")) == [AttrError("min_nodes", NotAnIntegerMessage)]
    ensures NumericalityErrorsAsWritten(Raw("+5\n")) == [AttrError("min_nodes", NotAnIntegerMessage)]
  {
    assert FloatText("1.5") && !IsDigit("1.5"[1]);
    assert FloatText("2.0") && !IsDigit("2.0"[1]);
    assert FloatText("+5\n") && "+5\n"[1..][1] == '\n';
  }

  /** Surrounding whitespace, an underscore or an exponent: also "must be an integer". */
  lemma SpacedFloatSyntaxMessages()
    ensures NumericalityErrorsAsWritten(Raw(" 5")) == [AttrError("min_nodes", NotAnIntegerMessage)]
    ensures NumericalityErrorsAsWritten(Raw("1_000")) == [AttrError("min_nodes", NotAnIntegerMessage)]
    ensures NumericalityErrorsAsWritten(Raw("1e3")) == [AttrError("min_nodes", NotAnIntegerMessage)]
  {
    assert FloatText(" 5") && !IsDigit(" 5"[0]);
    assert FloatText("1_000") && !IsDigit("1_000"[1]);
    assert FloatText("1e3") && !IsDigit("1e3"[1]);
  }

  /** Letters, a point with no fraction digits, or a doubled underscore: "is not a number". */
  lemma NonFloatSyntaxMessages()
    ensures NumericalityErrorsAsWritten(Raw("abc")) == [AttrError("min_nodes", NotANumberMessage)]
    ensures NumericalityErrorsAsWritten(Raw("1.")) == [AttrError("min_nodes", NotANumberMessage)]
    ensures NumericalityErrorsAsWritten(Raw("1__0")) == [AttrError("min_nodes", NotANumberMessage)]
  {
    assert !FloatText("abc") && !FloatText("1.") && !FloatText("1__0");
  }

  /**
   * A raw text the decoder left alone can still pass the numericality rule
   * when it carries a `+` sign, so a job whose `min_nodes` is the string
   * "+5" validates.
   */
  lemma SignedRawPassesAsWritten()
    ensures DecodeMinNodes("+5") == Raw("+5")
    ensures MinNodesPresenceErrors(Raw("+5")) + NumericalityErrorsAsWritten(Raw("+5")) == []
  {
    assert "+5"[1..] == "5";
  }

  /**
   * The numericality rule as intended: a value the decoder could not turn
   * into a count is never accepted.
   */
  function NumericalityErrors(v: MinNodes): (errors: seq<ValidationError>)
    ensures errors == [] <==> v.Count? && v.n >= 1
    ensures !v.Raw? ==> errors == NumericalityErrorsAsWritten(v)
  {
    if v.Raw? && NumericalityErrorsAsWritten(v) == [] then [AttrError("min_nodes", NotAnIntegerMessage)]
    else NumericalityErrorsAsWritten(v)
  }

  /** The rules on `min_nodes`, checked for `JOB`s only. */
  function MinNodesErrors(v: MinNodes): (errors: seq<ValidationError>)
    ensures errors == [] <==> v.Count? && v.n >= 1
  {
    MinNodesPresenceErrors(v) + NumericalityErrors(v)
  }

  /** Text in integer syntax starts with a sign or a digit, so it is never blank. */
  lemma IntegerTextNotBlank(s: string)
    ensures IntegerText(s) ==> !IsBlank(s)
  {
    if IntegerText(s) {
      assert !IsSpace(s[0]);
    }
  }

  /** The rules on `min_nodes` as written, with ActiveModel's numericality rule. */
  function MinNodesErrorsAsWritten(v: MinNodes): (errors: seq<ValidationError>)
    ensures errors == [] <==> MinNodesAcceptedAsWritten(v)
    ensures !v.Raw? ==> errors == MinNodesErrors(v)
  {
    if v.Raw? then IntegerTextNotBlank(v.text); MinNodesPresenceErrors(v) + NumericalityErrorsAsWritten(v)
    else MinNodesPresenceErrors(v) + NumericalityErrorsAsWritten(v)
  }

  /** No state or job type name is blank, so inclusion implies presence. */
  lemma NamesAreNotBlank()
    ensures forall s :: s in States ==> !IsBlank(s)
    ensures forall s :: s in JobTypes ==> !IsBlank(s)
  {
    forall s | s in States + JobTypes
      ensures !IsBlank(s)
    {
      assert !IsSpace(s[0]);
    }
  }

  /** The array-job rule: the stored range expression must be valid. */
  function ArrayRangeErrors(r: Range): (errors: seq<ValidationError>)
    ensures errors == [] <==> r.valid
  {
    if r.valid then [] else [AttrError("array", "is not a valid range expression")]
  }

  /**
   * Jobs whose validation can run: an `ARRAY_JOB` must hold a range, since
   * the array rule calls `valid?` on it.
   */
  predicate Validatable(job: Job) {
    job.jobType == Some("ARRAY_JOB") ==> job.arrayRange.Some?
  }

  /** The rules every job type shares, stated directly. */
  predicate CommonRulesHold(job: Job) {
    && job.id.Some? && !IsBlank(job.id.value)
    && job.state.Some? && job.state.value in States
    && (Reason(job).None? || Reason(job).value in Reasons)
    && job.jobType.Some? && job.jobType.value in JobTypes
  }

  /** The rules for `JOB`s, stated directly. */
  predicate PlainRulesHold(job: Job) {
    && job.minNodes.Count? && job.minNodes.n >= 1
    && job.scriptName.Some? && !IsBlank(job.scriptName.value)
    && job.scriptProvided == Bool(true)
  }

  /** The rules of the job model, stated directly. */
  predicate WellFormed(job: Job)
    requires Validatable(job)
  {
    && CommonRulesHold(job)
    && (job.jobType == Some("JOB") ==> PlainRulesHold(job))
    && (job.jobType == Some("ARRAY_JOB") ==> job.arrayRange.value.valid)
  }

  /** What ActiveModel's presence and integer-syntax numericality rules accept for `min_nodes`. */
  predicate MinNodesAcceptedAsWritten(v: MinNodes) {
    || (v.Count? && v.n >= 1)
    || (v.Raw? && IntegerText(v.text) && IntegerTextValue(v.text) >= 1)
  }

  /** The rules for `JOB`s as the code applies them. */
  predicate PlainRulesHoldAsWritten(job: Job) {
    && MinNodesAcceptedAsWritten(job.minNodes)
    && job.scriptName.Some? && !IsBlank(job.scriptName.value)
    && job.scriptProvided == Bool(true)
  }

  /** The rules of the job model as the code applies them. */
  predicate WellFormedAsWritten(job: Job)
    requires Validatable(job)
  {
    && CommonRulesHold(job)
    && (job.jobType == Some("JOB") ==> PlainRulesHoldAsWritten(job))
    && (job.jobType == Some("ARRAY_JOB") ==> job.arrayRange.value.valid)
  }

  /** The presence and inclusion rules on id and state. */
  function IdStateErrors(job: Job): (errors: seq<ValidationError>)
    ensures errors == [] <==> job.id.Some? && !IsBlank(job.id.value) && job.state.Some? && job.state.value in States
    ensures forall e :: e in errors ==> e.attribute == Sym("id") || e.attribute == Sym("state")
  {
    NamesAreNotBlank();
    PresenceErrors("id", job.id)
    + PresenceErrors("state", job.state)
    + InclusionErrors("state", job.state, States, false)
  }

  /** The inclusion rule on reason and the presence and inclusion rules on job type. */
  function ReasonTypeErrors(job: Job): (errors: seq<ValidationError>)
    ensures errors == [] <==> (Reason(job).None? || Reason(job).value in Reasons) && job.jobType.Some? && job.jobType.value in JobTypes
    ensures forall e :: e in errors ==> e.attribute == Sym("reason") || e.attribute == Sym("job_type")
    ensures Reason(job).None? ==> forall e :: e in errors ==> e.attribute != Sym("reason")
  {
    NamesAreNotBlank();
    InclusionErrors("reason", Reason(job), Reasons, true)
    + PresenceErrors("job_type", job.jobType)
    + InclusionErrors("job_type", job.jobType, JobTypes, false)
  }

  /** The presence and inclusion rules on id, state, reason and job type. */
  function CommonErrors(job: Job): (errors: seq<ValidationError>)
    ensures errors == [] <==> CommonRulesHold(job)
    ensures job.state != Some("PENDING") ==> forall e :: e in errors ==> e.attribute != Sym("reason")
    ensures forall e :: e in errors ==> e.attribute != Sym("array")
  {
    IdStateErrors(job) + ReasonTypeErrors(job)
  }

  /** The rules checked only when `job_type == "JOB"`. */
  function PlainErrors(job: Job): (errors: seq<ValidationError>)
    ensures errors == [] <==> PlainRulesHold(job)
    ensures (job.scriptName.None? || IsBlank(job.scriptName.value)) ==> AttrError("script_name", BlankMessage) in errors
    ensures job.scriptProvided != Bool(true) ==> AttrError("script_provided", InclusionMessage) in errors
    ensures forall e :: e in errors ==> e.attribute != Sym("array") && e.attribute != Sym("reason")
  {
    MinNodesErrors(job.minNodes)
    + PresenceErrors("script_name", job.scriptName)
    + (if job.scriptProvided == Bool(true) then [] else [AttrError("script_provided", InclusionMessage)])
  }

  /** The rules checked only when `job_type == "JOB"`, as written. */
  function PlainErrorsAsWritten(job: Job): (errors: seq<ValidationError>)
    ensures errors == [] <==> PlainRulesHoldAsWritten(job)
    ensures !job.minNodes.Raw? ==> errors == PlainErrors(job)
    ensures forall e :: e in errors ==> e.attribute != Sym("array") && e.attribute != Sym("reason")
  {
    MinNodesErrorsAsWritten(job.minNodes)
    + PresenceErrors("script_name", job.scriptName)
    + (if job.scriptProvided == Bool(true) then [] else [AttrError("script_provided", InclusionMessage)])
  }

  /** `errors` after `valid?`, in the order the rules are declared. */
  function Validate(job: Job): (errors: seq<ValidationError>)
    requires Validatable(job)
    ensures errors == [] <==> WellFormed(job)
    ensures job.state != Some("PENDING") ==> forall e :: e in errors ==> e.attribute != Sym("reason")
    ensures job.jobType == Some("JOB") ==> forall e :: e in PlainErrors(job) ==> e in errors
    ensures job.jobType == Some("ARRAY_JOB")
      ==> (AttrError("array", "is not a valid range expression") in errors <==> !job.arrayRange.value.valid)
  {
    CommonErrors(job)
    + (if job.jobType == Some("JOB") then PlainErrors(job) else [])
    + (if job.jobType == Some("ARRAY_JOB") then ArrayRangeErrors(job.arrayRange.value) else [])
  }

  predicate Valid(job: Job)
    requires Validatable(job)
  {
    Validate(job) == []
  }

  /**
   * `errors` after `valid?` as the code runs it: the `min_nodes` rules use
   * ActiveModel's integer syntax on text the decoder left alone.
   */
  function ValidateAsWritten(job: Job): (errors: seq<ValidationError>)
    requires Validatable(job)
    ensures errors == [] <==> WellFormedAsWritten(job)
    ensures WellFormed(job) ==> errors == []
    ensures (job.jobType != Some("JOB") || !job.minNodes.Raw?) ==> errors == Validate(job)
  {
    CommonErrors(job)
    + (if job.jobType == Some("JOB") then PlainErrorsAsWritten(job) else [])
    + (if job.jobType == Some("ARRAY_JOB") then ArrayRangeErrors(job.arrayRange.value) else [])
  }

  predicate ValidAsWritten(job: Job)
    requires Validatable(job)
  {
    ValidateAsWritten(job) == []
  }

  /**
   * A `JOB` whose `min_nodes` is the text "+5" and whose other settings meet
   * the rules passes `valid?` as written, and fails the corrected validation.
   */
  lemma SignedMinNodesSplitsVerdicts(job: Job)
    requires job.jobType == Some("JOB") && job.minNodes == Raw("+5") && CommonRulesHold(job)
    requires job.scriptName.Some? && !IsBlank(job.scriptName.value) && job.scriptProvided == Bool(true)
    ensures ValidAsWritten(job)
    ensures !Valid(job)
    ensures AttrError("min_nodes", NotAnIntegerMessage) in Validate(job)
  {
    assert "+5"[1..] == "5";
    assert IntegerText("+5") && IntegerTextValue("+5") == 5;
    assert NumericalityErrors(Raw("+5")) == [AttrError("min_nodes", NotAnIntegerMessage)];
    assert MinNodesErrors(Raw("+5")) == [AttrError("min_nodes", NotAnIntegerMessage)];
  }

  /** A `min_nodes` of "abc" is stored, not refused, and the job then fails validation. */
  lemma UndecodableMinNodesFailsValidation(job: Job)
    requires job.jobType == Some("JOB")
    ensures Assign(job, SetMinNodes("abc")).minNodes == Raw("abc")
    ensures !Valid(Assign(job, SetMinNodes("abc")))
  {
    var j := Assign(job, SetMinNodes("abc"));
    assert j.minNodes == Raw("abc") by {
      assert !IsDigit("abc"[0]);
    }
    assert !PlainRulesHold(j);
  }

  /** An inverted range such as "10-1" passes validation though it expands to nothing. */
  lemma InvertedRangeIsAccepted(job: Job)
    requires job.jobType == Some("ARRAY_JOB") && job.arrayRange == Some(Range([Span(10, 1)], true))
    ensures Expand(job.arrayRange.value) == []
    ensures AttrError("array", "is not a valid range expression") !in Validate(job)
  {
    InvertedSpanIsEmpty(10, 1);
  }

  // ---------------------------------------------------------------------------
  // Array tasks

  /** A plain job, or an array task viewed through its inner job record. */
  datatype Schedulable = Plain(job: Job) | ArrayTask(inner: Job)

  /** `Task.new(**opts)`: the options build the inner job, whose `array_job` is the parent. */
  function NewTask(params: seq<Assignment>): (t: Schedulable)
    ensures t.ArrayTask? && t.inner == NewJob(params)
  {
    ArrayTask(NewJob(params))
  }

  /** A task can answer the attributes it takes from its array job. */
  predicate HasArrayJob(w: Schedulable) {
    w.ArrayTask? ==> w.inner.arrayJob.Some?
  }

  /** The record that answers `state`, `reason`, `id` and the resource fields. */
  function Own(w: Schedulable): Job {
    match w
    case Plain(j) => j
    case ArrayTask(inner) => inner
  }

  /** The record that answers `partition`, `valid?` and `script_path`. */
  function Placement(w: Schedulable): Job
    requires HasArrayJob(w)
  {
    match w
    case Plain(j) => j
    case ArrayTask(inner) => inner.arrayJob.value
  }

  function MinNodesOf(w: Schedulable): (r: MinNodes)
    ensures w.ArrayTask? ==> r == Count(1)
    ensures w.Plain? ==> r == w.job.minNodes
  {
    match w
    case Plain(j) => j.minNodes
    case ArrayTask(_) => Count(1)
  }

  /**
   * `max_nodes`: a task does not define it, so it is delegated to the inner
   * job, which answers its own `min_nodes` rather than the task's 1.
   */
  function MaxNodesOf(w: Schedulable): (r: MinNodes)
    ensures w.ArrayTask? ==> r == w.inner.minNodes
    ensures w.Plain? ==> r == MinNodesOf(w)
  {
    MaxNodes(Own(w))
  }

  function JobTypeOf(w: Schedulable): (r: Option<string>)
    ensures w.ArrayTask? ==> r == Some("ARRAY_TASK")
    ensures w.Plain? ==> r == w.job.jobType
  {
    match w
    case Plain(j) => j.jobType
    case ArrayTask(_) => Some("ARRAY_TASK")
  }

  function IdOf(w: Schedulable): Option<string> {
    Own(w).id
  }

  function StateOf(w: Schedulable): Option<string> {
    Own(w).state
  }

  function ReasonOf(w: Schedulable): Option<string> {
    Reason(Own(w))
  }

  function CpusPerNodeOf(w: Schedulable): Option<int> {
    Own(w).cpusPerNode
  }

  function GpusPerNodeOf(w: Schedulable): Option<int> {
    Own(w).gpusPerNode
  }

  function MemoryPerNodeOf(w: Schedulable): Option<int> {
    Own(w).memoryPerNode
  }

  /**
   * The delegated readers answer from the task's own options: replacing the
   * array job a task points at changes none of them, and a task answers
   * exactly as a plain job built from the same options would.
   */
  lemma DelegatorsReadInnerJob(w: Schedulable, parent: Option<Job>)
    requires w.ArrayTask?
    ensures var moved := ArrayTask(w.inner.(arrayJob := parent));
      && IdOf(moved) == IdOf(w) && StateOf(moved) == StateOf(w) && ReasonOf(moved) == ReasonOf(w)
      && CpusPerNodeOf(moved) == CpusPerNodeOf(w) && GpusPerNodeOf(moved) == GpusPerNodeOf(w)
      && MemoryPerNodeOf(moved) == MemoryPerNodeOf(w)
    ensures IdOf(w) == IdOf(Plain(w.inner)) && StateOf(w) == StateOf(Plain(w.inner))
      && ReasonOf(w) == ReasonOf(Plain(w.inner)) && CpusPerNodeOf(w) == CpusPerNodeOf(Plain(w.inner))
      && GpusPerNodeOf(w) == GpusPerNodeOf(Plain(w.inner)) && MemoryPerNodeOf(w) == MemoryPerNodeOf(Plain(w.inner))
  {
  }

  function PartitionOf(w: Schedulable): Option<Partitions.Partition>
    requires HasArrayJob(w)
  {
    Placement(w).partition
  }

  function ScriptPathOf(jobDir: string, w: Schedulable): string
    requires HasArrayJob(w)
  {
    ScriptPath(jobDir, Placement(w))
  }

  predicate ValidatableOf(w: Schedulable) {
    HasArrayJob(w) && Validatable(Placement(w))
  }

  /** `valid?`: a task is valid exactly when its array job is. */
  predicate ValidOf(w: Schedulable)
    requires ValidatableOf(w)
  {
    Valid(Placement(w))
  }

  /** `valid?` as the code runs it, on the record that answers it. */
  predicate ValidAsWrittenOf(w: Schedulable)
    requires ValidatableOf(w)
  {
    ValidAsWritten(Placement(w))
  }

  /** `state=` on a task writes its inner record, never its array job. */
  function SetStateOf(w: Schedulable, s: Option<string>): (r: Schedulable)
    ensures StateOf(r) == s
    ensures r.ArrayTask? == w.ArrayTask?
  {
    match w
    case Plain(j) => Plain(j.(state := s))
    case ArrayTask(inner) => ArrayTask(inner.(state := s))
  }

  /**
   * A task's state is its own: changing it leaves every attribute the task
   * takes from its array job as it was, including the task's validity.
   */
  lemma TaskStateIsOwn(w: Schedulable, s: Option<string>)
    requires w.ArrayTask? && ValidatableOf(w)
    ensures ValidatableOf(SetStateOf(w, s))
    ensures PartitionOf(SetStateOf(w, s)) == PartitionOf(w)
    ensures ValidOf(SetStateOf(w, s)) == ValidOf(w)
    ensures forall dir :: ScriptPathOf(dir, SetStateOf(w, s)) == ScriptPathOf(dir, w)
    ensures MinNodesOf(SetStateOf(w, s)) == Count(1)
  {
  }

  /**
   * A task built from options naming its array job answers partition,
   * validity and script path from that job, and the rest from its options.
   */
  lemma NewTaskViews(params: seq<Assignment>, parent: Job, dir: string)
    requires NewJob(params).arrayJob == Some(parent) && Validatable(parent)
    ensures PartitionOf(NewTask(params)) == parent.partition
    ensures ValidOf(NewTask(params)) == Valid(parent)
    ensures ScriptPathOf(dir, NewTask(params)) == ScriptPath(dir, parent)
    ensures StateOf(NewTask(params)) == NewJob(params).state
    ensures JobTypeOf(NewTask(params)) == Some("ARRAY_TASK")
  {
  }
}
