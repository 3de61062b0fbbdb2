/** The two string-building helpers beside the resolver: `optimize_ddl`,
    which appends a canned note chosen by the usage type, and
    `validate_schema`, which prepends a fixed comment. */
module DdlNotes {
  import opened PyText

  /** The processing types that have a dedicated note. */
  datatype Usage = Oltp | Olap | Htap | Ollp | Batch | Stream

  /** The upper-case spelling the source compares against. */
  function UsageName(u: Usage): string {
    match u
    case Oltp => "OLTP"
    case Olap => "OLAP"
    case Htap => "HTAP"
    case Ollp => "OLLP"
    case Batch => "BATCH"
    case Stream => "STREAM"
  }

  /** The note for each processing type (lines 16-26). */
  function Note(u: Usage): string {
    "-- Optimized for " + Purpose(u)
  }

  /** What each note says the schema is optimized for. The texts are
      written as a few shorter literals joined with `+`, which leaves the
      value unchanged and keeps the verifier's work on them small. */
  function Purpose(u: Usage): string {
    match u
    case Oltp =>
      "high-volume " + "write speed and data integrity "
      + "(suggesting indexes on FK/PK and proper normalization).\n"
    case Olap =>
      "read " + "speed and aggregation (suggesting Columnar "
      + "Indexes, partitioning by time, or denormalization).\n"
    case Htap =>
      "low " + "latency on real-time data analytics "
      + "(suggesting In-Memory tables or hybrid indexing).\n"
    case Ollp =>
      "sub-" + "millisecond decisions (ensuring minimal structure, "
      + "focusing on data locality and low network overhead).\n"
    case Batch =>
      "high-throughput " + "scheduled processing (suggesting large "
      + "block sizes, table partitioning for parallel loading, "
      + "and minimal indexing during load).\n"
    case Stream =>
      "continuous " + "ingestion and real-time event detection "
      + "(suggesting Time-Series partitioning, Kafka integration "
      + "points, and high-speed primary key lookups).\n"
  }

  /** The note for any other usage type (line 28), in pieces as above. */
  const GeneralNote: string :=
    "-- General " + "optimization applied. No specific processing type detected.\n"

  /** Which note the `if`/`elif` chain of lines 15-28 picks. */
  datatype Choice = Dedicated(usage: Usage) | General

  /** The chain of comparisons of lines 15-28 on the upper-cased usage
      type. */
  function Classify(usageType: string): (c: Choice)
    ensures c.Dedicated? ==> usageType == UsageName(c.usage)
    ensures c.General? <==> forall u :: usageType != UsageName(u)
  {
    if usageType == "OLTP" then Dedicated(Oltp)
    else if usageType == "OLAP" then Dedicated(Olap)
    else if usageType == "HTAP" then Dedicated(Htap)
    else if usageType == "OLLP" then Dedicated(Ollp)
    else if usageType == "BATCH" then Dedicated(Batch)
    else if usageType == "STREAM" then Dedicated(Stream)
    else General
  }

  /** The note the chain appends. */
  function UsageNote(usageType: string): string {
    match Classify(usageType)
    case Dedicated(u) => Note(u)
    case General => GeneralNote
  }

  /** A usage type that names a processing type gets that type's note. */
  lemma UsageNoteKnown(usageType: string, u: Usage)
    requires usageType == UsageName(u)
    ensures UsageNote(usageType) == Note(u)
  {
    var c := Classify(usageType);
    assert c == Dedicated(u) by {
      if c.Dedicated? && c.usage != u {
        NamesDistinct(u, c.usage);
      }
    }
  }

  /** The general note is given exactly when the usage type names none of
      the processing types. */
  lemma UsageNoteGeneral(usageType: string)
    ensures UsageNote(usageType) == GeneralNote <==> forall u :: usageType != UsageName(u)
  {
    if u :| usageType == UsageName(u) {
      UsageNoteKnown(usageType, u);
      NoteNotGeneral(u);
    }
  }

  /** No two processing types share a name. */
  lemma NamesDistinct(u1: Usage, u2: Usage)
    requires u1 != u2
    ensures UsageName(u1) != UsageName(u2)
  {
    var n1, n2 := UsageName(u1), UsageName(u2);
    assert |n1| != |n2| || n1[0] != n2[0] || n1[2] != n2[2];
  }

  /** A dedicated note never reads as the general one. */
  lemma NoteNotGeneral(u: Usage)
    ensures Note(u) != GeneralNote
  {
    assert Note(u)[3] == 'O';
    assert GeneralNote[3] == 'G';
  }

  /** The heading line naming the upper-cased usage type (line 11). */
  function Heading(usageType: string): string {
    "\n-- OPTIMIZATION FOR " + Upper(usageType) + ":\n"
  }

  /** `optimize_ddl` (lines 8-30): the DDL, the heading and the note chosen
      for the upper-cased usage type. */
  function OptimizeDdl(ddlString: string, usageType: string): (r: string)
    ensures |r| > |ddlString| && r[..|ddlString|] == ddlString
  {
    var optimizationNotes := Heading(usageType);
    ddlString + (optimizationNotes + UsageNote(Upper(usageType)))
  }

  /** The usage type is matched without regard to case: upper-casing it
      first changes nothing. */
  lemma OptimizeCaseInsensitive(ddlString: string, usageType: string)
    ensures OptimizeDdl(ddlString, Upper(usageType)) == OptimizeDdl(ddlString, usageType)
  {
    UpperIdempotent(usageType);
  }

  /** A usage type naming a processing type, in any case, gets that type's
      note after the heading. */
  lemma OptimizeKnown(ddlString: string, usageType: string, u: Usage)
    requires Upper(usageType) == UsageName(u)
    ensures OptimizeDdl(ddlString, usageType) == ddlString + Heading(usageType) + Note(u)
  {
    UsageNoteKnown(Upper(usageType), u);
  }

  /** Any other usage type gets the general note after the heading. */
  lemma OptimizeGeneral(ddlString: string, usageType: string)
    requires forall u :: Upper(usageType) != UsageName(u)
    ensures OptimizeDdl(ddlString, usageType) == ddlString + Heading(usageType) + GeneralNote
  {
    UsageNoteGeneral(Upper(usageType));
  }

  /** The comment `validate_schema` puts first (line 35), in pieces as
      above. */
  const ValidationBanner: string :=
    "-- SCHEMA VALIDATION:\n" + "-- Schema successfully " + "validated with the provided "
    + "JSON sample data. Data " + "types appear consistent.\n"

  /** `validate_schema` (lines 32-35): the banner, then the DDL unchanged;
      the sample data plays no part. */
  function ValidateSchema(ddlString: string, sampleDataJson: string): (r: string)
    ensures |r| == |ValidationBanner| + |ddlString|
    ensures r[..|ValidationBanner|] == ValidationBanner && r[|ValidationBanner|..] == ddlString
  {
    ValidationBanner + ddlString
  }
}
