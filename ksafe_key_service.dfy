/**
  `KSafeKeyService`, the `KeyService` that keeps the app's encryption key in
  the KSafe key-value store under one alias, creating it on first use. The
  store is the map field `store`; `getDirect(alias, "")` reads it with `""`
  for a missing entry and `putDirect` overwrites one entry. A key is created
  from 32 random draws (as `KeyGenerator.generateSecureKey` makes it), and a
  `putDirect` that throws is modelled by the `putFailure` argument.
 */
module KeyProvisioning {
  import opened KotlinLang
  import CryptoUtils
  import PlatformServices

  const KeyAlias: string := "SavitAuthenticatorEncryptionKey"

  const GeneratedMessage: string := "Key generated successfully"

  /** The key `generateSecureKey` makes from `draws`. */
  function FreshKey(draws: seq<int>): string {
    PlatformServices.HexFormat(PlatformServices.KeyBytes(draws))
  }

  /** Draws `Random.nextInt(256)` can produce for one key. */
  predicate AreKeyDraws(draws: seq<int>) {
    |draws| == PlatformServices.KeySize && CryptoUtils.AreDraws(draws, 256)
  }

  /** `after` differs from `before` at most under the alias. */
  ghost predicate OnlyAliasWritten(before: map<string, string>, after: map<string, string>) {
    forall k :: k != KeyAlias ==> (k in before <==> k in after) && (k in before ==> before[k] == after[k])
  }

  /** A fresh key is never empty, so once stored it is found again. */
  lemma FreshKeyIsKey(draws: seq<int>)
    requires AreKeyDraws(draws)
    ensures |FreshKey(draws)| == 64 && FreshKey(draws) != ""
    ensures CryptoUtils.HexStringToByteArray(FreshKey(draws)).Success?
    ensures CryptoUtils.HexStringToByteArray(FreshKey(draws)).value == draws
  {
    PlatformServices.SecureKeyOfDraws(draws);
  }

  class KSafeKeyService {
    var store: map<string, string>

    constructor(initial: map<string, string>)
      ensures store == initial
    {
      store := initial;
    }

    /** `kSafe.getDirect(KEY_ALIAS, "")`. */
    function StoredKey(): string
      reads this
    {
      if KeyAlias in store then store[KeyAlias] else ""
    }

    /** `generateAndStoreKey`: a fresh key is generated and written under the
        alias; when `putDirect` throws, the exception propagates and the store
        is unchanged. */
    method GenerateAndStoreKey(draws: seq<int>, putFailure: Option<Exception>) returns (r: Result<string, Exception>)
      requires AreKeyDraws(draws)
      modifies this
      ensures putFailure.Some? ==> r == Failure(putFailure.value) && store == old(store)
      ensures putFailure.None? ==> r == Success(FreshKey(draws)) && store == old(store)[KeyAlias := FreshKey(draws)]
      ensures r.Success? ==> StoredKey() == r.value && |r.value| == 64
      ensures OnlyAliasWritten(old(store), store)
    {
      var keyString := PlatformServices.GenerateSecureKey(draws);
      if putFailure.Some? {
        return Failure(putFailure.value);
      }
      store := store[KeyAlias := keyString];
      r := Success(keyString);
    }

    /** `getKey`: a non-empty stored key is returned and nothing is written;
        an empty or missing one is replaced by a fresh key, which is returned.
        After a successful call the alias holds exactly the returned non-empty
        key, so a second call returns it again without writing. */
    method GetKey(draws: seq<int>, putFailure: Option<Exception>) returns (r: Result<string, Exception>)
      requires AreKeyDraws(draws)
      modifies this
      ensures old(StoredKey()) != "" ==> r == Success(old(StoredKey())) && store == old(store)
      ensures old(StoredKey()) == "" && putFailure.Some? ==> r == Failure(putFailure.value) && store == old(store)
      ensures old(StoredKey()) == "" && putFailure.None? ==>
        r == Success(FreshKey(draws)) && store == old(store)[KeyAlias := FreshKey(draws)]
      ensures r.Success? ==> StoredKey() == r.value && r.value != ""
      ensures OnlyAliasWritten(old(store), store)
    {
      var existingKey := StoredKey();
      if |existingKey| > 0 {
        return Success(existingKey);
      }
      r := GenerateAndStoreKey(draws, putFailure);
    }

    /** `generateKey`: always replaces the stored key and reports success, or
        returns `null` with the store unchanged when storing throws. */
    method GenerateKey(draws: seq<int>, putFailure: Option<Exception>) returns (r: Option<string>)
      requires AreKeyDraws(draws)
      modifies this
      ensures putFailure.None? ==> r == Some(GeneratedMessage) && store == old(store)[KeyAlias := FreshKey(draws)]
      ensures putFailure.Some? ==> r == None && store == old(store)
      ensures OnlyAliasWritten(old(store), store)
    {
      var result := GenerateAndStoreKey(draws, putFailure);
      if result.Failure? {
        return None;
      }
      r := Some(GeneratedMessage);
    }
  }
}
