/**
 * The `/presign` route (routes/upload.js lines 14-39): an object key under
 * `posts/`, a pre-signed PUT URL for it from the storage SDK, and the public
 * URL of the object. The uuid generator, the bucket and region settings and
 * the signer are inputs.
 */
module Presign {
  import opened Wrappers
  import opened Http
  import opened Text
  import opened JsValues

  const KeyPrefix: string := "posts/"

  /** `Expires`: the pre-signed URL is valid for 300 seconds. */
  const UrlLifetimeSeconds: int := 300

  const SignFailedMessage: string := "Failed to generate upload URL"

  /** The two environment settings the route reads; None when unset. */
  datatype StorageConfig = StorageConfig(bucket: Option<string>, region: Option<string>)

  /** The call `getSignedUrlPromise(operation, { Bucket, Key, ContentType, Expires })`. */
  datatype SignRequest = SignRequest(operation: string, bucket: Option<string>, key: string, contentType: JsValue, expires: int)

  datatype SignOutcome = Signed(url: string) | SignFailed

  datatype PresignBody =
    | UploadUrls(uploadUrl: string, publicUrl: string, key: string)
    | PresignError(error: string)

  /** An unset environment variable inside a template literal reads "undefined". */
  function SettingText(setting: Option<string>): string
  {
    if setting.Some? then setting.value else "undefined"
  }

  /** Line 17: `posts/${uuid}-${fileName}`. */
  function ObjectKey(uuid: string, fileName: JsValue): (key: string)
    ensures KeyPrefix <= key
    ensures EndsWith(key, "-" + TemplateText(fileName))
  {
    var key := KeyPrefix + uuid + "-" + TemplateText(fileName);
    assert key == (KeyPrefix + uuid) + ("-" + TemplateText(fileName));
    key
  }

  /** A version-4 uuid string: 36 characters. */
  predicate IsUuidText(uuid: string)
  {
    |uuid| == 36
  }

  /** Reads a key of the form `posts/<36-character uuid>-<name>` back into its uuid and name. */
  function ParseObjectKey(key: string): Option<(string, string)>
  {
    if KeyPrefix <= key && |key| >= 43 && key[42] == '-' then Some((key[6..42], key[43..])) else None
  }

  /** The key keeps the generated uuid and the file name apart: both can be read back from it. */
  lemma ObjectKeyRoundTrip(uuid: string, fileName: JsValue)
    requires IsUuidText(uuid)
    ensures ParseObjectKey(ObjectKey(uuid, fileName)) == Some((uuid, TemplateText(fileName)))
  {
    var name := TemplateText(fileName);
    var key := ObjectKey(uuid, fileName);
    assert key == KeyPrefix + (uuid + ("-" + name));
    assert key[6..42] == uuid;
    assert key[43..] == name;
  }

  /** Line 28: the object's address on the storage service. */
  function PublicUrl(config: StorageConfig, key: string): (url: string)
    ensures EndsWith(url, "/" + key)
  {
    var host := "https://" + SettingText(config.bucket) + ".s3." + SettingText(config.region) + ".amazonaws.com";
    assert host + "/" + key == host + ("/" + key);
    host + "/" + key
  }

  /** For one configuration, the public URL determines the key. */
  lemma PublicUrlDeterminesKey(config: StorageConfig, key1: string, key2: string)
    requires PublicUrl(config, key1) == PublicUrl(config, key2)
    ensures key1 == key2
  {
    var u := PublicUrl(config, key1);
    assert key1 == u[|u| - |key1|..];
    assert key2 == u[|u| - |key2|..];
  }

  /** The parameters the route hands to the signer. */
  function SignRequestFor(config: StorageConfig, key: string, fileType: JsValue): SignRequest
  {
    SignRequest("putObject", config.bucket, key, fileType, UrlLifetimeSeconds)
  }

  /**
   * The handler: build the key, ask the signer for a PUT URL, and answer with
   * the signed URL, the public URL and the key; 500 if the signer fails, and
   * 500 before signing when the body is null or undefined and cannot be
   * destructured.
   */
  function PresignUpload(config: StorageConfig, body: JsValue, uuid: string, sign: SignRequest -> SignOutcome): (r: Response<PresignBody>)
    ensures r.status == 200 || r == Response(500, PresignError(SignFailedMessage))
    ensures r.status == 200 ==> r.body.UploadUrls? && KeyPrefix <= r.body.key && r.body.publicUrl == PublicUrl(config, r.body.key)
  {
    if Nullish(body) then Response(500, PresignError(SignFailedMessage))
    else
      var key := ObjectKey(uuid, Prop(body, "fileName"));
      match sign(SignRequestFor(config, key, Prop(body, "fileType")))
      case SignFailed => Response(500, PresignError(SignFailedMessage))
      case Signed(url) => Response(200, UploadUrls(url, PublicUrl(config, key), key))
  }

  /**
   * The route answers 200 exactly when the body can be destructured and the
   * signer succeeds. Then the key it returns is `posts/<uuid>-<fileName>`, the
   * key the signer was asked to sign for a PUT of the caller's content type
   * valid for 300 seconds; the upload URL is what the signer returned; and the
   * public URL is the bucket's URL for that key. Otherwise the answer is 500
   * with no key or URL; for a null or undefined body it is given whatever the
   * signer would do, since the signer is never asked.
   */
  lemma PresignSignsTheReturnedKey(config: StorageConfig, body: JsValue, uuid: string,
                                   sign: SignRequest -> SignOutcome, other: SignRequest -> SignOutcome)
    ensures var r := PresignUpload(config, body, uuid, sign);
            var request := SignRequestFor(config, ObjectKey(uuid, Prop(body, "fileName")), Prop(body, "fileType"));
            && (r.status == 200 <==> !Nullish(body) && sign(request).Signed?)
            && (r.status == 200 ==>
                  && r.body.UploadUrls?
                  && request.operation == "putObject"
                  && request.bucket == config.bucket
                  && request.key == r.body.key
                  && request.contentType == Prop(body, "fileType")
                  && request.expires == 300
                  && sign(request) == Signed(r.body.uploadUrl)
                  && KeyPrefix <= r.body.key
                  && EndsWith(r.body.key, "-" + TemplateText(Prop(body, "fileName")))
                  && r.body.publicUrl == PublicUrl(config, r.body.key))
            && (r.status != 200 ==> r == Response(500, PresignError(SignFailedMessage)))
            && (Nullish(body) ==> r == PresignUpload(config, body, uuid, other))
  {
  }
}
