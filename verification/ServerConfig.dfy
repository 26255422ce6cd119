/** The thirteen configuration fields, their default and their validity (src/config/server_config.cc). */
module ServerConfig {
  import opened Basics

  datatype ServerConfig = ServerConfig(
    serverApplicationName: Bytes,
    serverProductUri: Bytes,
    serverBindAddress: Bytes,
    serverPort: int32,
    serverEndpointPath: Bytes,
    securityMode: Bytes,
    securityPolicy: Bytes,
    maxSessions: int32,
    maxSubscriptions: int32,
    loggingLevel: Bytes,
    loggingTarget: Bytes,
    addressSpaceMode: Bytes,
    addressSpacePath: Bytes)

  datatype Field =
    | ApplicationName | ProductUri | BindAddress | Port | EndpointPath
    | SecurityMode | SecurityPolicy | MaxSessions | MaxSubscriptions
    | LoggingLevel | LoggingTarget | AddressSpaceMode | AddressSpacePath

  datatype FieldValue = String(text: Bytes) | Integer(number: int32)

  /** The order in which the source lists, prints and writes the fields. */
  const FIELDS: seq<Field> := [
    ApplicationName, ProductUri, BindAddress, Port, EndpointPath, SecurityMode, SecurityPolicy,
    MaxSessions, MaxSubscriptions, LoggingLevel, LoggingTarget, AddressSpaceMode, AddressSpacePath
  ]

  /** The JSON name of a field. */
  function Name(f: Field): Bytes {
    match f
    case ApplicationName => Ascii("server_application_name")
    case ProductUri => Ascii("server_product_uri")
    case BindAddress => Ascii("server_bind_address")
    case Port => Ascii("server_port")
    case EndpointPath => Ascii("server_endpoint_path")
    case SecurityMode => Ascii("security_mode")
    case SecurityPolicy => Ascii("security_policy")
    case MaxSessions => Ascii("max_sessions")
    case MaxSubscriptions => Ascii("max_subscriptions")
    case LoggingLevel => Ascii("logging_level")
    case LoggingTarget => Ascii("logging_target")
    case AddressSpaceMode => Ascii("address_space_mode")
    case AddressSpacePath => Ascii("address_space_path")
  }

  /** The database key of a field. */
  function Key(f: Field): Bytes {
    match f
    case ApplicationName => Ascii("server.application_name")
    case ProductUri => Ascii("server.product_uri")
    case BindAddress => Ascii("server.bind_address")
    case Port => Ascii("server.port")
    case EndpointPath => Ascii("server.endpoint_path")
    case SecurityMode => Ascii("security.mode")
    case SecurityPolicy => Ascii("security.policy")
    case MaxSessions => Ascii("limits.max_sessions")
    case MaxSubscriptions => Ascii("limits.max_subscriptions")
    case LoggingLevel => Ascii("logging.level")
    case LoggingTarget => Ascii("logging.target")
    case AddressSpaceMode => Ascii("address_space.mode")
    case AddressSpacePath => Ascii("address_space.path")
  }

  function Get(c: ServerConfig, f: Field): FieldValue {
    match f
    case ApplicationName => String(c.serverApplicationName)
    case ProductUri => String(c.serverProductUri)
    case BindAddress => String(c.serverBindAddress)
    case Port => Integer(c.serverPort)
    case EndpointPath => String(c.serverEndpointPath)
    case SecurityMode => String(c.securityMode)
    case SecurityPolicy => String(c.securityPolicy)
    case MaxSessions => Integer(c.maxSessions)
    case MaxSubscriptions => Integer(c.maxSubscriptions)
    case LoggingLevel => String(c.loggingLevel)
    case LoggingTarget => String(c.loggingTarget)
    case AddressSpaceMode => String(c.addressSpaceMode)
    case AddressSpacePath => String(c.addressSpacePath)
  }

  predicate HasNul(v: FieldValue) {
    v.String? && 0 in v.text
  }

  predicate NulFree(c: ServerConfig) {
    forall f: Field :: !HasNul(Get(c, f))
  }

  predicate IsInteger(f: Field) {
    f == Port || f == MaxSessions || f == MaxSubscriptions
  }

  /** A field value of the right kind for every field. */
  predicate WellKinded(values: Field -> FieldValue) {
    forall f: Field :: IsInteger(f) <==> values(f).Integer?
  }

  function FromFields(values: Field -> FieldValue): ServerConfig
    requires WellKinded(values)
  {
    ServerConfig(
      values(ApplicationName).text, values(ProductUri).text, values(BindAddress).text,
      values(Port).number, values(EndpointPath).text, values(SecurityMode).text,
      values(SecurityPolicy).text, values(MaxSessions).number, values(MaxSubscriptions).number,
      values(LoggingLevel).text, values(LoggingTarget).text, values(AddressSpaceMode).text,
      values(AddressSpacePath).text)
  }

  lemma FieldsDetermineConfig(c: ServerConfig, d: ServerConfig)
    requires forall f: Field :: Get(c, f) == Get(d, f)
    ensures c == d
  {
    assert Get(c, ApplicationName) == Get(d, ApplicationName);
    assert Get(c, ProductUri) == Get(d, ProductUri);
    assert Get(c, BindAddress) == Get(d, BindAddress);
    assert Get(c, Port) == Get(d, Port);
    assert Get(c, EndpointPath) == Get(d, EndpointPath);
    assert Get(c, SecurityMode) == Get(d, SecurityMode);
    assert Get(c, SecurityPolicy) == Get(d, SecurityPolicy);
    assert Get(c, MaxSessions) == Get(d, MaxSessions);
    assert Get(c, MaxSubscriptions) == Get(d, MaxSubscriptions);
    assert Get(c, LoggingLevel) == Get(d, LoggingLevel);
    assert Get(c, LoggingTarget) == Get(d, LoggingTarget);
    assert Get(c, AddressSpaceMode) == Get(d, AddressSpaceMode);
    assert Get(c, AddressSpacePath) == Get(d, AddressSpacePath);
  }

  lemma AllFieldsListed(f: Field)
    ensures f in FIELDS
    ensures |FIELDS| == 13
    ensures forall i, j :: 0 <= i < j < 13 ==> FIELDS[i] != FIELDS[j]
  {
    match f
    case ApplicationName => assert FIELDS[0] == f;
    case ProductUri => assert FIELDS[1] == f;
    case BindAddress => assert FIELDS[2] == f;
    case Port => assert FIELDS[3] == f;
    case EndpointPath => assert FIELDS[4] == f;
    case SecurityMode => assert FIELDS[5] == f;
    case SecurityPolicy => assert FIELDS[6] == f;
    case MaxSessions => assert FIELDS[7] == f;
    case MaxSubscriptions => assert FIELDS[8] == f;
    case LoggingLevel => assert FIELDS[9] == f;
    case LoggingTarget => assert FIELDS[10] == f;
    case AddressSpaceMode => assert FIELDS[11] == f;
    case AddressSpacePath => assert FIELDS[12] == f;
  }

  lemma LiteralEnds(s: string)
    requires s != ""
    ensures var n := |s|;
            |Ascii(s)| == n && Ascii(s)[0] == s[0] as int % 256 && Ascii(s)[n - 1] == s[n - 1] as int % 256
  {
  }

  /** Names are made of lower-case letters and '_'. */
  predicate Plain(b: byte) {
    0x61 <= b <= 0x7A || b == 0x5F
  }

  lemma PlainLiteral(s: string)
    requires forall c :: c in s ==> 'a' <= c <= 'z' || c == '_'
    ensures forall i :: 0 <= i < |Ascii(s)| ==> Plain(Ascii(s)[i])
    ensures var n := |s|;
            s != "" ==> |Ascii(s)| == n && Ascii(s)[0] == s[0] as int % 256 && Ascii(s)[n - 1] == s[n - 1] as int % 256
  {
    forall i | 0 <= i < |s| ensures Plain(Ascii(s)[i]) {
      assert s[i] in s;
    }
  }

  /** Length, first and last byte of a JSON name; no two fields share all three. */
  function NameShape(f: Field): (nat, byte, byte) {
    match f
    case ApplicationName => (23, 0x73, 0x65)
    case ProductUri => (18, 0x73, 0x69)
    case BindAddress => (19, 0x73, 0x73)
    case Port => (11, 0x73, 0x74)
    case EndpointPath => (20, 0x73, 0x68)
    case SecurityMode => (13, 0x73, 0x65)
    case SecurityPolicy => (15, 0x73, 0x79)
    case MaxSessions => (12, 0x6D, 0x73)
    case MaxSubscriptions => (17, 0x6D, 0x73)
    case LoggingLevel => (13, 0x6C, 0x6C)
    case LoggingTarget => (14, 0x6C, 0x74)
    case AddressSpaceMode => (18, 0x61, 0x65)
    case AddressSpacePath => (18, 0x61, 0x68)
  }

  lemma NamesArePlain(f: Field)
    ensures Name(f) != [] && NameShape(f) == (|Name(f)|, Name(f)[0], Name(f)[|Name(f)| - 1])
    ensures forall i :: 0 <= i < |Name(f)| ==> Plain(Name(f)[i])
  {
    hide Name, NameShape;
    match f
    case ApplicationName | ProductUri => IdentityName(f);
    case BindAddress | Port | EndpointPath => EndpointName(f);
    case SecurityMode | SecurityPolicy | MaxSessions | MaxSubscriptions => LimitName(f);
    case LoggingLevel | LoggingTarget | AddressSpaceMode | AddressSpacePath => OutputName(f);
  }

  lemma IdentityName(f: Field)
    requires f == ApplicationName || f == ProductUri
    ensures Name(f) != [] && NameShape(f) == (|Name(f)|, Name(f)[0], Name(f)[|Name(f)| - 1])
    ensures forall i :: 0 <= i < |Name(f)| ==> Plain(Name(f)[i])
  {
    hide Ascii;
    match f
    case ApplicationName => PlainLiteral("server_application_name");
    case ProductUri => PlainLiteral("server_product_uri");
  }

  lemma EndpointName(f: Field)
    requires f == BindAddress || f == Port || f == EndpointPath
    ensures Name(f) != [] && NameShape(f) == (|Name(f)|, Name(f)[0], Name(f)[|Name(f)| - 1])
    ensures forall i :: 0 <= i < |Name(f)| ==> Plain(Name(f)[i])
  {
    hide Ascii;
    match f
    case BindAddress => PlainLiteral("server_bind_address");
    case Port => PlainLiteral("server_port");
    case EndpointPath => PlainLiteral("server_endpoint_path");
  }

  lemma LimitName(f: Field)
    requires f == SecurityMode || f == SecurityPolicy || f == MaxSessions || f == MaxSubscriptions
    ensures Name(f) != [] && NameShape(f) == (|Name(f)|, Name(f)[0], Name(f)[|Name(f)| - 1])
    ensures forall i :: 0 <= i < |Name(f)| ==> Plain(Name(f)[i])
  {
    hide Ascii;
    match f
    case SecurityMode => PlainLiteral("security_mode");
    case SecurityPolicy => PlainLiteral("security_policy");
    case MaxSessions => PlainLiteral("max_sessions");
    case MaxSubscriptions => PlainLiteral("max_subscriptions");
  }

  lemma OutputName(f: Field)
    requires f == LoggingLevel || f == LoggingTarget || f == AddressSpaceMode || f == AddressSpacePath
    ensures Name(f) != [] && NameShape(f) == (|Name(f)|, Name(f)[0], Name(f)[|Name(f)| - 1])
    ensures forall i :: 0 <= i < |Name(f)| ==> Plain(Name(f)[i])
  {
    hide Ascii;
    match f
    case LoggingLevel => PlainLiteral("logging_level");
    case LoggingTarget => PlainLiteral("logging_target");
    case AddressSpaceMode => PlainLiteral("address_space_mode");
    case AddressSpacePath => PlainLiteral("address_space_path");
  }

  lemma NamesDiffer(f: Field, g: Field)
    requires Name(f) == Name(g)
    ensures f == g
  {
    hide Name;
    NamesArePlain(f);
    NamesArePlain(g);
  }

  /** Length, first and last byte of a database key; no two fields share all three. */
  function KeyShape(f: Field): (nat, byte, byte) {
    match f
    case ApplicationName => (23, 0x73, 0x65)
    case ProductUri => (18, 0x73, 0x69)
    case BindAddress => (19, 0x73, 0x73)
    case Port => (11, 0x73, 0x74)
    case EndpointPath => (20, 0x73, 0x68)
    case SecurityMode => (13, 0x73, 0x65)
    case SecurityPolicy => (15, 0x73, 0x79)
    case MaxSessions => (19, 0x6C, 0x73)
    case MaxSubscriptions => (24, 0x6C, 0x73)
    case LoggingLevel => (13, 0x6C, 0x6C)
    case LoggingTarget => (14, 0x6C, 0x74)
    case AddressSpaceMode => (18, 0x61, 0x65)
    case AddressSpacePath => (18, 0x61, 0x68)
  }

  lemma KeyHasShape(f: Field)
    ensures Key(f) != [] && KeyShape(f) == (|Key(f)|, Key(f)[0], Key(f)[|Key(f)| - 1])
  {
    hide Key, KeyShape;
    match f
    case ApplicationName | ProductUri => IdentityKey(f);
    case BindAddress | Port | EndpointPath => EndpointKey(f);
    case SecurityMode | SecurityPolicy | MaxSessions | MaxSubscriptions => LimitKey(f);
    case LoggingLevel | LoggingTarget | AddressSpaceMode | AddressSpacePath => OutputKey(f);
  }

  lemma IdentityKey(f: Field)
    requires f == ApplicationName || f == ProductUri
    ensures Key(f) != [] && KeyShape(f) == (|Key(f)|, Key(f)[0], Key(f)[|Key(f)| - 1])
  {
    hide Ascii;
    match f
    case ApplicationName => LiteralEnds("server.application_name");
    case ProductUri => LiteralEnds("server.product_uri");
  }

  lemma EndpointKey(f: Field)
    requires f == BindAddress || f == Port || f == EndpointPath
    ensures Key(f) != [] && KeyShape(f) == (|Key(f)|, Key(f)[0], Key(f)[|Key(f)| - 1])
  {
    hide Ascii;
    match f
    case BindAddress => LiteralEnds("server.bind_address");
    case Port => LiteralEnds("server.port");
    case EndpointPath => LiteralEnds("server.endpoint_path");
  }

  lemma LimitKey(f: Field)
    requires f == SecurityMode || f == SecurityPolicy || f == MaxSessions || f == MaxSubscriptions
    ensures Key(f) != [] && KeyShape(f) == (|Key(f)|, Key(f)[0], Key(f)[|Key(f)| - 1])
  {
    hide Ascii;
    match f
    case SecurityMode => LiteralEnds("security.mode");
    case SecurityPolicy => LiteralEnds("security.policy");
    case MaxSessions => LiteralEnds("limits.max_sessions");
    case MaxSubscriptions => LiteralEnds("limits.max_subscriptions");
  }

  lemma OutputKey(f: Field)
    requires f == LoggingLevel || f == LoggingTarget || f == AddressSpaceMode || f == AddressSpacePath
    ensures Key(f) != [] && KeyShape(f) == (|Key(f)|, Key(f)[0], Key(f)[|Key(f)| - 1])
  {
    hide Ascii;
    match f
    case LoggingLevel => LiteralEnds("logging.level");
    case LoggingTarget => LiteralEnds("logging.target");
    case AddressSpaceMode => LiteralEnds("address_space.mode");
    case AddressSpacePath => LiteralEnds("address_space.path");
  }

  lemma KeysDiffer(f: Field, g: Field)
    requires Key(f) == Key(g)
    ensures f == g
  {
    hide Key;
    KeyHasShape(f);
    KeyHasShape(g);
  }

  function Default(): ServerConfig {
    ServerConfig(
      Ascii("Open62541 C++ Server"), Ascii("urn:rakctite:opcua-server-opensource"), Ascii("0.0.0.0"),
      4840, Ascii("/"), Ascii("none"), Ascii("none"), 100, 100, Ascii("info"), Ascii("stdout"),
      Ascii("builtin"), [])
  }

  const FILE_PREFIX: Bytes := Ascii("file:")

  /** `ServerConfig::Validate` answers Ok. */
  predicate Valid(c: ServerConfig) {
    && c.serverApplicationName != []
    && c.serverProductUri != []
    && c.serverBindAddress != []
    && 1 <= c.serverPort <= 65535
    && c.serverEndpointPath != [] && c.serverEndpointPath[0] == 0x2F
    && c.securityMode == Ascii("none")
    && c.securityPolicy == Ascii("none")
    && c.maxSessions > 0
    && c.maxSubscriptions > 0
    && c.loggingLevel in {Ascii("trace"), Ascii("debug"), Ascii("info"), Ascii("warn"), Ascii("error")}
    && (|| c.loggingTarget == Ascii("stdout")
        || (FILE_PREFIX <= c.loggingTarget && |c.loggingTarget| > |FILE_PREFIX|))
    && c.addressSpaceMode == Ascii("builtin")
  }

  lemma DefaultIsValid()
    ensures Valid(Default())
  {
  }

  /** Each test of the validation, on the default with one field changed to any value. */
  lemma EachFieldIsTested(s: Bytes, n: int32)
    ensures Valid(Default().(serverApplicationName := s)) <==> s != []
    ensures Valid(Default().(serverProductUri := s)) <==> s != []
    ensures Valid(Default().(serverBindAddress := s)) <==> s != []
    ensures Valid(Default().(serverPort := n)) <==> 1 <= n <= 65535
    ensures Valid(Default().(serverEndpointPath := s)) <==> s != [] && s[0] == '/' as byte
    ensures Valid(Default().(securityMode := s)) <==> s == Ascii("none")
    ensures Valid(Default().(securityPolicy := s)) <==> s == Ascii("none")
    ensures Valid(Default().(maxSessions := n)) <==> n > 0
    ensures Valid(Default().(maxSubscriptions := n)) <==> n > 0
    ensures Valid(Default().(loggingLevel := s)) <==>
            s in [Ascii("trace"), Ascii("debug"), Ascii("info"), Ascii("warn"), Ascii("error")]
    ensures Valid(Default().(loggingTarget := s)) <==>
            s == Ascii("stdout") || (Ascii("file:") <= s && s != Ascii("file:"))
    ensures Valid(Default().(addressSpaceMode := s)) <==> s == Ascii("builtin")
    ensures Valid(Default().(addressSpacePath := s))
  {
    DefaultIsValid();
    hide Ascii;
    FilePrefix(s);
  }

  lemma FilePrefix(s: Bytes)
    ensures FILE_PREFIX <= s ==> (|s| > |FILE_PREFIX| <==> s != FILE_PREFIX)
  {
  }
}
