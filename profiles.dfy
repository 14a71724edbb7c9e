/**
 * A cluster connection profile (`Context`): name, API server URL, starting
 * namespace and three optional PEM blobs, with the accessors that decode
 * them, the authentication test every load is guarded by, the certificate
 * importer, and the client configuration built from a profile.
 */
module Profiles {
  import opened Wrappers

  newtype UInt8 = x: int | 0 <= x < 256

  /** `[UInt8]`, the stored PEM text. */
  type Bytes = seq<UInt8>

  /** A parsed `URL`. */
  datatype Url = Url(text: string)

  /** A decoded `NIOSSLCertificate`. */
  datatype Certificate = Certificate(der: Bytes)

  /** A decoded `NIOSSLPrivateKey`. */
  datatype PrivateKey = PrivateKey(der: Bytes)

  /**
   * The NIOSSL PEM decoders, `NIOSSLCertificate(bytes:format: .pem)` and
   * `NIOSSLPrivateKey(bytes:format: .pem)`; `None` stands for "throws".
   */
  datatype PemDecoder = PemDecoder(
    certificate: Bytes -> Option<Certificate>,
    privateKey: Bytes -> Option<PrivateKey>)

  /** The error thrown when a server string is not a URL: `URLError(.badURL)`. */
  datatype UrlError = BadUrl

  const DefaultNamespace := "default"

  /** Stored bytes that are present decode; absent bytes are fine. */
  predicate Decodes<T>(bytes: Option<Bytes>, decode: Bytes -> Option<T>) {
    bytes.Some? ==> decode(bytes.value).Some?
  }

  /**
   * The shape shared by the three accessors: nil bytes give nil, present bytes
   * are decoded. A decoding failure is `fatalError` in the accessor, so the
   * caller must not reach it: present bytes are required to decode.
   */
  function DecodeStored<T>(bytes: Option<Bytes>, decode: Bytes -> Option<T>): (r: Option<T>)
    requires Decodes(bytes, decode)
    ensures r.None? <==> bytes.None?
    ensures r.Some? ==> decode(bytes.value) == r
  {
    if bytes.None? then None else decode(bytes.value)
  }

  /** The three certificate fields of a profile, named. */
  datatype CertSlot = ServerCASlot | ClientCertSlot | ClientKeySlot

  /** The importer's three "which field am I importing" flags. */
  datatype ImportFlags = ImportFlags(serverCA: bool, clientCert: bool, clientKey: bool)

  /** Whether the flag of `slot` is set. */
  function Pending(flags: ImportFlags, slot: CertSlot): bool {
    match slot
    case ServerCASlot => flags.serverCA
    case ClientCertSlot => flags.clientCert
    case ClientKeySlot => flags.clientKey
  }

  /** The order in which the importer checks the flags. */
  function Rank(slot: CertSlot): nat {
    match slot
    case ServerCASlot => 0
    case ClientCertSlot => 1
    case ClientKeySlot => 2
  }

  /** Some flag is set; with none set the importer stops with `fatalError`. */
  predicate AnyPending(flags: ImportFlags) {
    flags.serverCA || flags.clientCert || flags.clientKey
  }

  /** The field an import writes: the first slot, in checking order, whose flag is set. */
  function ImportTarget(flags: ImportFlags): (slot: CertSlot)
    requires AnyPending(flags)
    ensures Pending(flags, slot)
    ensures forall s :: Rank(s) < Rank(slot) ==> !Pending(flags, s)
  {
    if flags.serverCA then ServerCASlot
    else if flags.clientCert then ClientCertSlot
    else ClientKeySlot
  }

  /** The flags with the flag of `slot` cleared. */
  function Cleared(flags: ImportFlags, slot: CertSlot): (r: ImportFlags)
    ensures !Pending(r, slot)
    ensures forall s :: s != slot ==> Pending(r, s) == Pending(flags, s)
  {
    match slot
    case ServerCASlot => flags.(serverCA := false)
    case ClientCertSlot => flags.(clientCert := false)
    case ClientKeySlot => flags.(clientKey := false)
  }

  class Context {
    var name: string
    var server: Url
    /** Only the starting namespace. */
    var namespace: string
    var serverCABytes: Option<Bytes>
    var clientCABytes: Option<Bytes>
    var clientKeyBytes: Option<Bytes>

    /** `init(name:url:namespace:)`: no certificate material yet. */
    constructor (name: string, url: Url, namespace: string := DefaultNamespace)
      ensures this.name == name && server == url && this.namespace == namespace
      ensures serverCABytes.None? && clientCABytes.None? && clientKeyBytes.None?
    {
      this.name := name;
      this.server := url;
      this.namespace := namespace;
      serverCABytes := None;
      clientCABytes := None;
      clientKeyBytes := None;
    }

    /**
     * `init(name:string:namespace:)`, which throws `URLError(.badURL)` when
     * the string is not a URL. `parseUrl` is `URL(string:)`.
     */
    static method FromString(parseUrl: string -> Option<Url>, name: string, s: string,
                             namespace: string := DefaultNamespace)
      returns (r: Result<Context, UrlError>)
      ensures r.Failure? <==> parseUrl(s).None?
      ensures r.Failure? ==> r.error == BadUrl
      ensures r.Success? ==>
        && fresh(r.value)
        && r.value.name == name && r.value.server == parseUrl(s).value && r.value.namespace == namespace
        && r.value.serverCABytes.None? && r.value.clientCABytes.None? && r.value.clientKeyBytes.None?
    {
      var parsed := parseUrl(s);
      if parsed.None? {
        return Failure(BadUrl);
      }
      var c := new Context(name, parsed.value, namespace);
      return Success(c);
    }

    /** `serverCA`: nil exactly when no server CA bytes are stored. */
    function ServerCA(pem: PemDecoder): (c: Option<Certificate>)
      reads this
      requires Decodes(serverCABytes, pem.certificate)
      ensures c.None? <==> serverCABytes.None?
      ensures c.Some? ==> pem.certificate(serverCABytes.value) == c
    {
      DecodeStored(serverCABytes, pem.certificate)
    }

    /** `clientCA`, the client certificate: nil exactly when no bytes are stored. */
    function ClientCA(pem: PemDecoder): (c: Option<Certificate>)
      reads this
      requires Decodes(clientCABytes, pem.certificate)
      ensures c.None? <==> clientCABytes.None?
      ensures c.Some? ==> pem.certificate(clientCABytes.value) == c
    {
      DecodeStored(clientCABytes, pem.certificate)
    }

    /** `clientKey`: nil exactly when no key bytes are stored. */
    function ClientKey(pem: PemDecoder): (k: Option<PrivateKey>)
      reads this
      requires Decodes(clientKeyBytes, pem.privateKey)
      ensures k.None? <==> clientKeyBytes.None?
      ensures k.Some? ==> pem.privateKey(clientKeyBytes.value) == k
    {
      DecodeStored(clientKeyBytes, pem.privateKey)
    }

    /**
     * What `has_auth()` makes the accessors decode: the client certificate,
     * and the key only when a certificate is stored (`&&` short-circuits).
     */
    predicate HasAuthDecodes(pem: PemDecoder)
      reads this
    {
      Decodes(clientCABytes, pem.certificate)
      && (clientCABytes.Some? ==> Decodes(clientKeyBytes, pem.privateKey))
    }

    /** `has_auth()`: a client certificate and a client key are stored; the server CA is not looked at. */
    function HasAuth(pem: PemDecoder): (r: bool)
      reads this
      requires HasAuthDecodes(pem)
      ensures r <==> clientCABytes.Some? && clientKeyBytes.Some?
    {
      ClientCA(pem).Some? && ClientKey(pem).Some?
    }

    /** All three blobs are stored and decode: what `ContextClient.client` force-unwraps. */
    predicate Connectable(pem: PemDecoder)
      reads this
    {
      && serverCABytes.Some? && clientCABytes.Some? && clientKeyBytes.Some?
      && Decodes(serverCABytes, pem.certificate)
      && Decodes(clientCABytes, pem.certificate)
      && Decodes(clientKeyBytes, pem.privateKey)
    }

    /**
     * What a guarded load decodes before it builds a client: the `has_auth()`
     * accessors, and the server CA once `has_auth()` holds.
     */
    predicate LoadDecodes(pem: PemDecoder)
      reads this
    {
      HasAuthDecodes(pem) && (HasAuth(pem) ==> Decodes(serverCABytes, pem.certificate))
    }

    /**
     * The corrected load guard: `has_auth()` and a server CA. Unlike
     * `has_auth()` alone it guarantees that a client can be built.
     */
    function CanConnect(pem: PemDecoder): (r: bool)
      reads this
      requires LoadDecodes(pem)
      ensures r <==> HasAuth(pem) && serverCABytes.Some?
      ensures r <==> Connectable(pem)
    {
      HasAuth(pem) && ServerCA(pem).Some?
    }

    /** The bytes stored in `slot`. */
    function Stored(slot: CertSlot): Option<Bytes>
      reads this
    {
      match slot
      case ServerCASlot => serverCABytes
      case ClientCertSlot => clientCABytes
      case ClientKeySlot => clientKeyBytes
    }

    /**
     * The importer's completion handler, after the file has been read: the
     * bytes go into the field of the first set flag, and that flag is
     * cleared. With no flag set the source stops with `fatalError`.
     */
    method Import(bytes: Bytes, flags: ImportFlags) returns (remaining: ImportFlags)
      requires AnyPending(flags)
      modifies this
      ensures Stored(ImportTarget(flags)) == Some(bytes)
      ensures forall s :: s != ImportTarget(flags) ==> Stored(s) == old(Stored(s))
      ensures name == old(name) && server == old(server) && namespace == old(namespace)
      ensures remaining == Cleared(flags, ImportTarget(flags))
    {
      if flags.serverCA {
        serverCABytes := Some(bytes);
        remaining := flags.(serverCA := false);
      } else if flags.clientCert {
        clientCABytes := Some(bytes);
        remaining := flags.(clientCert := false);
      } else {
        clientKeyBytes := Some(bytes);
        remaining := flags.(clientKey := false);
      }
    }
  }

  /**
   * `has_auth()` does not imply that a client can be built: with a client
   * certificate and key but no server CA, every load passes its guard and
   * then force-unwraps a nil `serverCA` in `ContextClient.client`.
   */
  lemma HasAuthWithoutServerCA(ctx: Context, pem: PemDecoder, cert: Bytes, key: Bytes)
    requires ctx.clientCABytes == Some(cert) && pem.certificate(cert).Some?
    requires ctx.clientKeyBytes == Some(key) && pem.privateKey(key).Some?
    requires ctx.serverCABytes.None?
    ensures ctx.HasAuthDecodes(pem) && ctx.HasAuth(pem)
    ensures !ctx.Connectable(pem)
  {
  }

  /** `HTTPClient.Configuration.Timeout`, in whole seconds. */
  datatype Timeout = Timeout(connectSeconds: nat, readSeconds: nat)

  /** `HTTPClient.Configuration.RedirectConfiguration`. */
  datatype RedirectConfiguration = Disallow | Follow(max: nat, allowCycles: bool)

  /** `KubernetesClientAuthentication`; only the x509 variant is used. */
  datatype Authentication = X509(clientCertificate: Certificate, clientKey: PrivateKey)

  /** `KubernetesClientConfig`, the parameters a `KubernetesClient` is built from. */
  datatype ClientConfig = ClientConfig(
    masterURL: Url,
    namespace: string,
    authentication: Authentication,
    trustRoots: seq<Certificate>,
    insecureSkipTLSVerify: bool,
    timeout: Timeout,
    redirectConfiguration: RedirectConfiguration)

  class ContextClient {
    var context: Context

    constructor (context: Context)
      ensures this.context == context
    {
      this.context := context;
    }

    /**
     * `client`: the configuration of the Kubernetes client, built from the
     * profile. All three accessors are force-unwrapped, so all three blobs
     * must be present and decode.
     */
    function Client(pem: PemDecoder): (config: ClientConfig)
      reads this, context
      requires context.Connectable(pem)
      ensures config.masterURL == context.server && config.namespace == context.namespace
      ensures config.authentication.clientCertificate == pem.certificate(context.clientCABytes.value).value
      ensures config.authentication.clientKey == pem.privateKey(context.clientKeyBytes.value).value
      ensures config.trustRoots == [pem.certificate(context.serverCABytes.value).value]
      ensures !config.insecureSkipTLSVerify
      ensures config.timeout == Timeout(1, 10)
      ensures config.redirectConfiguration == Follow(5, false)
    {
      ClientConfig(
        context.server,
        context.namespace,
        X509(context.ClientCA(pem).value, context.ClientKey(pem).value),
        [context.ServerCA(pem).value],
        false,
        Timeout(1, 10),
        Follow(5, false))
    }

    /**
     * Whenever the corrected guard lets a load through, the client it builds
     * is well defined.
     */
    lemma CanConnectBuildsClient(pem: PemDecoder)
      requires context.LoadDecodes(pem)
      requires context.CanConnect(pem)
      ensures context.Connectable(pem)
      ensures Client(pem).authentication == X509(context.ClientCA(pem).value, context.ClientKey(pem).value)
    {
    }
  }
}
