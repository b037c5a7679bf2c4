/** The key names that must never reach a log line, by family. Matching is exact. */
module SecretKeys {

  const PASSWORDS := [
    "password", "currentPassword", "newPassword", "tempPassword", "userPassword",
    "devicePassword", "accountTempPassword", "adminPassword", "demoPassword", "passwordHash"
  ]

  const PINS_AND_CODES := [ "pin", "pinHash", "recoveryCode", "recoveryCodes" ]

  const SESSION_TOKENS := [
    "token", "tokenHash", "accessToken", "access_token", "refreshToken", "refresh_token",
    "refreshTokenHash", "idToken", "id_token", "sessionToken", "inviteToken"
  ]

  const ISSUED_TOKENS := [
    "shareToken", "shareTokenHash", "resetToken", "apiToken", "apiTokenHash",
    "downloadToken", "downloadTokenHash", "pendingToken", "botToken"
  ]

  const SECRETS := [
    "secret", "secretHash", "secretEncrypted", "encryptedSecret", "clientSecret",
    "client_secret", "clientSecretHash", "client_secret_hash", "twoFactorSecret",
    "totpSecret", "proofSecret", "rawSessionSecret", "sessionSecrets"
  ]

  const KEY_MATERIAL := [
    "apiKey", "apikey", "api_key", "privateKey", "private_key", "encryptionKey",
    "otpauthUri", "recoveryCodeHashes"
  ]

  const VAULT_MATERIAL := [
    "mnemonic", "seed", "seedPhrase", "passphrase", "oldPassphrase", "newPassphrase"
  ]

  const HEADERS := [
    "cookie", "Cookie", "set-cookie", "Set-Cookie", "setCookie", "authorization", "Authorization"
  ]

  const LISTED: seq<string> :=
    PASSWORDS + PINS_AND_CODES + SESSION_TOKENS + ISSUED_TOKENS +
    SECRETS + KEY_MATERIAL + VAULT_MATERIAL + HEADERS

  const SECRET_KEYS: set<string> := set k | k in LISTED

  /** The policy names 68 keys. */
  lemma AllAreListed()
    ensures |LISTED| == 68 && forall i :: 0 <= i < 68 ==> LISTED[i] in SECRET_KEYS
  {
  }

  lemma PhrasesEndOtherwise(k: string)
    requires k in PASSWORDS + VAULT_MATERIAL
    ensures |k| > 0 && k[|k| - 1] != 'N'
  {
  }

  lemma SessionsEndOtherwise(k: string)
    requires k in PINS_AND_CODES + SESSION_TOKENS
    ensures |k| > 0 && k[|k| - 1] != 'N'
  {
  }

  lemma IssuedEndOtherwise(k: string)
    requires k in ISSUED_TOKENS + HEADERS
    ensures |k| > 0 && k[|k| - 1] != 'N'
  {
  }

  lemma KeysEndOtherwise(k: string)
    requires k in SECRETS + KEY_MATERIAL
    ensures |k| > 0 && k[|k| - 1] != 'N'
  {
  }

  /** `toJSON` is not on the list, so the rule beside the list is needed. */
  lemma ToJsonIsNotSecret()
    ensures "toJSON" !in SECRET_KEYS
  {
    hide PASSWORDS, PINS_AND_CODES, SESSION_TOKENS, ISSUED_TOKENS, SECRETS, KEY_MATERIAL, VAULT_MATERIAL, HEADERS;
    var k := "toJSON";
    if k in PASSWORDS + VAULT_MATERIAL {
      PhrasesEndOtherwise(k);
    }
    if k in PINS_AND_CODES + SESSION_TOKENS {
      SessionsEndOtherwise(k);
    }
    if k in ISSUED_TOKENS + HEADERS {
      IssuedEndOtherwise(k);
    }
    if k in SECRETS + KEY_MATERIAL {
      KeysEndOtherwise(k);
    }
  }

  lemma PinIsSecret()
    ensures "pin" in SECRET_KEYS
  {
    assert "pin" in PINS_AND_CODES;
  }
}
