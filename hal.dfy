/** The transport HAL seen from the protocol layer. The HAL itself is platform
    code outside the model: every call the codecs make into it is recorded as
    one `HalCall`, and whatever the HAL answers is handed to the codec as an input. */
module Hal {
  import opened Bytes

  datatype HalCall =
    | UartTx(frame: seq<uint8>)            // sensirion_uart_hal_tx
    | UartRx(maxLen: int)                  // sensirion_uart_hal_rx with the requested byte count
    | I2cWrite(address: bv8, bytes: seq<bv8>)  // sensirion_i2c_hal_write / sensirion_i2c_write
    | I2cRead(address: bv8, count: int)    // sensirion_i2c_hal_read / sensirion_i2c_read
    | Sleep(usec: bv32)                    // the HAL's microsecond sleep
}
