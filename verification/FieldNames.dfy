/** The names of the record fields on the wire. */
module FieldNames {
  import opened Hashes

  // storage hints and trust evidence
  const TYPE: Name := "type"
  const URI: Name := "uri"
  const CONTENT_HASH: Name := "content_hash"
  const METADATA: Name := "metadata"
  const BODY: Name := "body"

  // index references and candidate sets
  const SHORT_ID: Name := "short_id"
  const MANIFEST_KEY: Name := "manifest_key"
  const MANIFEST_HASH: Name := "manifest_hash"
  const DOCUMENT_BYTES: Name := "document_bytes"
  const STORAGE_HINTS: Name := "storage_hints"
  const NAMESPACE_ID: Name := "namespace_id"
  const DERIVATION_PROFILE: Name := "derivation_profile"
  const CREATED_AT: Name := "created_at"
  const VERSION: Name := "version"
  const ROUTE_KEY: Name := "route_key"
  const COMPLETE: Name := "complete"
  const TOTAL_AVAILABLE: Name := "total_available"
  const REFERENCES: Name := "references"

  // the parts of a manifest
  const REGION_ID: Name := "region_id"
  const ALG_ID: Name := "alg_id"
  const COMMITMENT: Name := "commitment"
  const MEDIA_TYPE: Name := "media_type"
  const ESSENCE_ALG_ID: Name := "essence_alg_id"
  const ESSENCE_HASH: Name := "essence_hash"
  const HASH_ALG: Name := "hash_alg"
  const WM_ALG_ID: Name := "wm_alg_id"
  const STRICT_BYTE_HASH: Name := "strict_byte_hash"
  const STRICT_DECODE_HASH: Name := "strict_decode_hash"
  const REGION_COMMITMENTS: Name := "region_commitments"
  const KID: Name := "kid"
  const ALG: Name := "alg"
  const SIG: Name := "sig"
  const ROLE: Name := "role"
  const SIGNED_AT: Name := "signed_at"
  const CERTIFICATE_CHAIN: Name := "certificate_chain"
  const MANIFEST_VERSION: Name := "manifest_version"
  const ARTIFACT: Name := "artifact"
  const CLAIMS: Name := "claims"
  const C2PA: Name := "c2pa"
  const ENCRYPTED_CLAIMS: Name := "encrypted_claims"
  const EXTENSIONS: Name := "extensions"
  const CORE: Name := "core"
  const SIGNATURES: Name := "signatures"

  // locators and envelopes
  const MODE: Name := "mode"
  const VALUE: Name := "value"
  const HDC_PROFILE_ID: Name := "hdc_profile_id"
  const MANIFEST: Name := "manifest"
  const LOCATOR: Name := "locator"
  const TRUST_EVIDENCE: Name := "trust_evidence"

  // values
  const HASH_TRUNCATED: Name := "hash_truncated"
  const NAMESPACED_REGISTRY: Name := "namespaced_registry"
}
