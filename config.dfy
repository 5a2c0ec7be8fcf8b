/**
 * The storage configuration of backend/config/storage.py: which backend is in use
 * and whether an S3 configuration is complete. The values the configuration reads
 * from the environment are the fields of `StorageConfig`.
 */
module Config {
  import opened Wrappers

  /** The `StorageType` enumeration with its two string values. */
  datatype StorageType = Local | S3
  {
    function Value(): string
    {
      match this
      case Local => "local"
      case S3 => "s3"
    }
  }

  /** `StorageType(value)`: the enumeration member with that value; `None` where Python raises ValueError. */
  function StorageTypeOf(value: string): (t: Option<StorageType>)
    ensures t.Some? ==> t.value.Value() == value
    ensures t.None? ==> forall u: StorageType :: u.Value() != value
  {
    if value == "local" then Some(Local)
    else if value == "s3" then Some(S3)
    else None
  }

  /** Python truthiness of an optional string: present and non-empty. */
  predicate Present(setting: Option<string>)
  {
    setting.Some? && setting.value != ""
  }

  datatype StorageConfig = StorageConfig(
    storageType: StorageType,
    localUploadDir: string,
    autoDeleteHours: int,
    s3BucketName: Option<string>,
    s3Region: string,
    awsAccessKeyId: Option<string>,
    awsSecretAccessKey: Option<string>)
  {
    /** `is_local_storage`. */
    predicate IsLocalStorage(): (b: bool)
      ensures b <==> storageType.Value() == "local"
    {
      storageType == Local
    }

    /** `is_s3_storage`. */
    predicate IsS3Storage(): (b: bool)
      ensures b <==> storageType.Value() == "s3"
    {
      storageType == S3
    }

    /** Local storage needs nothing; S3 needs a bucket name, an access key id and a secret key. */
    predicate ValidateS3Config(): (b: bool)
      ensures storageType == Local ==> b
      ensures storageType == S3 && !Present(s3BucketName) ==> !b
      ensures storageType == S3 && !Present(awsAccessKeyId) ==> !b
      ensures storageType == S3 && !Present(awsSecretAccessKey) ==> !b
    {
      storageType == S3 ==>
        Present(s3BucketName) && Present(awsAccessKeyId) && Present(awsSecretAccessKey)
    }
  }

  /** The field values when none of the environment variables is set. */
  const DefaultConfig := StorageConfig(Local, "uploads", 24, None, "us-east-1", None, None)

  lemma StorageTypeRoundTrip(t: StorageType)
    ensures StorageTypeOf(t.Value()) == Some(t)
  {
  }

  lemma ExactlyOneBackend(c: StorageConfig)
    ensures c.IsLocalStorage() <==> !c.IsS3Storage()
    ensures c.IsLocalStorage() <==> c.storageType == Local
    ensures c.IsS3Storage() <==> c.storageType == S3
  {
  }

  lemma LocalConfigIsAlwaysValid(c: StorageConfig)
    requires c.IsLocalStorage()
    ensures c.ValidateS3Config()
  {
  }

  lemma S3ConfigValidIff(c: StorageConfig)
    requires c.IsS3Storage()
    ensures c.ValidateS3Config() <==>
      && c.s3BucketName.Some? && c.s3BucketName.value != ""
      && c.awsAccessKeyId.Some? && c.awsAccessKeyId.value != ""
      && c.awsSecretAccessKey.Some? && c.awsSecretAccessKey.value != ""
  {
  }

  lemma DefaultsAreLocal()
    ensures DefaultConfig.IsLocalStorage() && !DefaultConfig.IsS3Storage()
    ensures DefaultConfig.storageType.Value() == "local"
    ensures DefaultConfig.autoDeleteHours == 24
    ensures DefaultConfig.ValidateS3Config()
  {
  }
}
